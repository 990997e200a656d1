/** The dataflow graph: node types with their port masks, ports and connections. */
module DataflowGraph {
  import opened Digraph

  datatype Direction = In | Out

  /** Whether data is exchanged only when it is new, or also when it is old. */
  datatype Freshness = New | Old

  /** Four sets of port indexes of one node (bit maps of 64 bits in the program). */
  datatype Mask = Mask(pullNew: set<nat>, pullOld: set<nat>, pushNew: set<nat>, pushOld: set<nat>) {
    function Bits(d: Direction, k: Freshness): set<nat> {
      match (d, k)
      case (In, New) => pullNew
      case (In, Old) => pullOld
      case (Out, New) => pushNew
      case (Out, Old) => pushOld
    }

    predicate SubsetOf(sup: Mask) {
      pullNew <= sup.pullNew && pullOld <= sup.pullOld && pushNew <= sup.pushNew && pushOld <= sup.pushOld
    }

    /** am_dfg_port_mask_apply: bitwise or. */
    function Apply(src: Mask): Mask {
      Mask(pullNew + src.pullNew, pullOld + src.pullOld, pushNew + src.pushNew, pushOld + src.pushOld)
    }

    /** am_dfg_port_mask_diff: bitwise exclusive or. */
    function Diff(b: Mask): Mask {
      Mask(Xor(pullNew, b.pullNew), Xor(pullOld, b.pullOld), Xor(pushNew, b.pushNew), Xor(pushOld, b.pushOld))
    }
  }

  const EMPTY_MASK := Mask({}, {}, {}, {})

  function Xor(a: set<nat>, b: set<nat>): set<nat> {
    (a - b) + (b - a)
  }

  datatype PortType = PortType(dir: Direction, newMask: Mask, oldMask: Mask) {
    function MaskFor(k: Freshness): Mask {
      match k
      case New => newMask
      case Old => oldMask
    }
  }

  datatype PortRef = PortRef(node: nat, idx: nat)

  datatype Port = Port(ptype: PortType, conns: seq<PortRef>)

  /** The field `marking` of a node: one number that the scheduler and the search for
      cycles both use, each with its own meaning. */
  type Marking = int

  /** The nodes of a graph, each with its ports. */
  type Graph = seq<seq<Port>>

  predicate HasPort(g: Graph, r: PortRef) {
    r.node < |g| && r.idx < |g[r.node]|
  }

  function At(g: Graph, r: PortRef): Port
    requires HasPort(g, r)
  {
    g[r.node][r.idx]
  }

  /** Every index in the mask names a port of a node with `n` ports. */
  ghost predicate Bounded(m: Mask, n: nat) {
    forall d: Direction, k: Freshness, i: nat :: i in m.Bits(d, k) ==> i < n
  }

  /** Port `i` exists and has direction `d`. */
  predicate Directed(ports: seq<Port>, i: nat, d: Direction) {
    i < |ports| && ports[i].ptype.dir == d
  }

  /** Every pull bit names an input port and every push bit an output port. */
  ghost predicate Typed(m: Mask, ports: seq<Port>) {
    forall d: Direction, k: Freshness, i: nat :: i in m.Bits(d, k) ==> Directed(ports, i, d)
  }

  ghost predicate MasksBounded(g: Graph) {
    forall r :: HasPort(g, r) ==>
      Bounded(At(g, r).ptype.newMask, |g[r.node]|) && Bounded(At(g, r).ptype.oldMask, |g[r.node]|)
  }

  ghost predicate Connected(g: Graph, r: PortRef, q: PortRef) {
    HasPort(g, r) && q in At(g, r).conns
  }

  ghost predicate RefsExist(g: Graph) {
    forall r, q :: Connected(g, r, q) ==> HasPort(g, q)
  }

  /** Connections are listed on both sides and join ports of opposite directions. */
  ghost predicate Symmetric(g: Graph) {
    forall r, q :: Connected(g, r, q) ==> Connected(g, q, r) && At(g, q).ptype.dir != At(g, r).ptype.dir
  }

  ghost predicate SingleInput(g: Graph) {
    forall r :: HasPort(g, r) && At(g, r).ptype.dir == In ==> |At(g, r).conns| <= 1
  }

  ghost predicate NoDuplicateConns(g: Graph) {
    forall r :: HasPort(g, r) ==> Distinct(At(g, r).conns)
  }

  ghost predicate AtMost64Ports(g: Graph) {
    forall n :: 0 <= n < |g| ==> |g[n]| <= 64
  }

  ghost predicate WellFormed(g: Graph) {
    AtMost64Ports(g) && MasksBounded(g) && RefsExist(g) && Symmetric(g) && SingleInput(g) && NoDuplicateConns(g)
  }

  /** No node of `c` is connected to itself. */
  ghost predicate NoSelfLoop(g: Graph, c: set<nat>) {
    forall r, q :: Connected(g, r, q) && r.node in c ==> q.node != r.node
  }

  ghost function AllNodes(g: Graph): set<nat> {
    Indexes(|g|)
  }

  /** Data flows from node `a` to node `b` along a connection. */
  ghost predicate Feeds(g: Graph, a: nat, b: nat) {
    exists r, q :: Connected(g, r, q) && At(g, r).ptype.dir == Out && r.node == a && q.node == b
  }

  ghost function FlowEdges(g: Graph): Edges {
    (a: nat, b: nat) => Feeds(g, a, b)
  }

  lemma AcyclicHasNoSelfLoop(g: Graph)
    requires Symmetric(g) && !Cyclic(FlowEdges(g))
    ensures forall c :: NoSelfLoop(g, c)
  {
    forall r, q | Connected(g, r, q) ensures q.node != r.node {
      if q.node == r.node {
        var e := FlowEdges(g);
        assert Connected(g, q, r);
        if At(g, r).ptype.dir == Out {
          assert Feeds(g, r.node, q.node);
        } else {
          assert Feeds(g, q.node, r.node);
        }
        assert e(r.node, r.node);
        assert WalkFromTo(e, [r.node, r.node], r.node, r.node);
        CycleWitness(e, r.node, [r.node, r.node]);
      }
    }
  }

  /** The port that feeds a connected input port. */
  function Producer(g: Graph, q: PortRef): PortRef
    requires HasPort(g, q) && At(g, q).conns != []
  {
    At(g, q).conns[0]
  }

  lemma OnlyProducer(g: Graph, r: PortRef, q: PortRef)
    requires WellFormed(g) && Connected(g, r, q) && At(g, r).ptype.dir == Out
    ensures HasPort(g, q) && At(g, q).ptype.dir == In && At(g, q).conns == [r] && Producer(g, q) == r
  {
    assert Connected(g, q, r);
  }
}
