/** Connecting, disconnecting and reconnecting ports, and what the search for cycles
    says about the graph that results. */
module GraphEditing {
  import opened Wrappers
  import opened Digraph
  import opened DataflowGraph
  import opened CycleCheck

  function SetConns(g: Graph, p: PortRef, conns: seq<PortRef>): (h: Graph)
    requires HasPort(g, p)
    ensures |h| == |g| && forall r :: HasPort(h, r) <==> HasPort(g, r)
    ensures forall r :: HasPort(g, r) ==> At(h, r) == if r == p then Port(At(g, p).ptype, conns) else At(g, r)
  {
    g[p.node := g[p.node][p.idx := Port(At(g, p).ptype, conns)]]
  }

  /** Both ports with each other as their last connection. */
  function Connect(g: Graph, src: PortRef, dst: PortRef): (h: Graph)
    requires HasPort(g, src) && HasPort(g, dst)
  {
    var g1 := SetConns(g, src, At(g, src).conns + [dst]);
    SetConns(g1, dst, At(g1, dst).conns + [src])
  }

  function Disconnect(g: Graph, src: PortRef, dst: PortRef): (h: Graph)
    requires HasPort(g, src) && HasPort(g, dst)
  {
    var g1 := SetConns(g, src, Remove(At(g, src).conns, dst));
    SetConns(g1, dst, Remove(At(g1, dst).conns, src))
  }

  predicate Connectable(g: Graph, src: PortRef, dst: PortRef) {
    HasPort(g, src) && HasPort(g, dst) && At(g, src).ptype.dir == Out && At(g, dst).ptype.dir == In &&
    At(g, dst).conns == []
  }

  lemma NodesKept(g: Graph, h: Graph)
    requires |h| == |g| && forall r :: HasPort(h, r) <==> HasPort(g, r)
    ensures forall n :: 0 <= n < |g| ==> |h[n]| == |g[n]|
  {
    forall n | 0 <= n < |g| ensures |h[n]| == |g[n]| {
      assert HasPort(g, PortRef(n, |h[n]|)) <==> HasPort(h, PortRef(n, |h[n]|));
      assert HasPort(g, PortRef(n, |g[n]|)) <==> HasPort(h, PortRef(n, |g[n]|));
    }
  }

  /** `h` has the ports of `g`, whatever their connections. */
  ghost predicate SamePortTypes(g: Graph, h: Graph) {
    |h| == |g| && (forall r :: HasPort(h, r) <==> HasPort(g, r)) &&
    forall r :: HasPort(g, r) ==> At(h, r).ptype == At(g, r).ptype
  }

  lemma SamePortTypesKept(g: Graph, h: Graph)
    requires SamePortTypes(g, h) && AtMost64Ports(g) && MasksBounded(g)
    ensures AtMost64Ports(h) && MasksBounded(h)
  {
    NodesKept(g, h);
  }

  lemma ConnectConnections(g: Graph, src: PortRef, dst: PortRef)
    requires Connectable(g, src, dst)
    ensures SamePortTypes(g, Connect(g, src, dst))
    ensures forall a, b :: Connected(Connect(g, src, dst), a, b) <==>
      Connected(g, a, b) || (a == src && b == dst) || (a == dst && b == src)
    ensures var h := Connect(g, src, dst);
      At(h, src).conns == At(g, src).conns + [dst] && At(h, dst).conns == [src]
  {
  }

  /** Connecting an output to an unconnected input keeps the graph well-formed. */
  lemma ConnectKeepsWellFormed(g: Graph, src: PortRef, dst: PortRef)
    requires WellFormed(g) && Connectable(g, src, dst)
    ensures WellFormed(Connect(g, src, dst))
  {
    var h := Connect(g, src, dst);
    ConnectConnections(g, src, dst);
    SamePortTypesKept(g, h);
    assert Connected(g, src, dst) ==> Connected(g, dst, src);
    assert dst !in At(g, src).conns;
    forall r | HasPort(h, r) ensures Distinct(At(h, r).conns) {
      assert Distinct(At(g, r).conns);
    }
    forall r | HasPort(h, r) && At(h, r).ptype.dir == In ensures |At(h, r).conns| <= 1 {
      assert |At(g, r).conns| <= 1;
    }
  }

  lemma {:induction false} RemoveAt(conns: seq<PortRef>, q: PortRef, i: nat)
    requires i < |conns| && conns[i] == q && q !in conns[..i]
    ensures Remove(conns, q) == conns[..i] + conns[i + 1..]
    decreases i
  {
    if i > 0 {
      assert conns[0] in conns[..i] && conns[1..][..i - 1] == conns[1..i];
      assert forall k :: 0 <= k < i - 1 ==> conns[1..i][k] == conns[..i][k + 1];
      RemoveAt(conns[1..], q, i - 1);
    }
  }

  lemma DisconnectConnections(g: Graph, src: PortRef, dst: PortRef)
    requires WellFormed(g) && Connected(g, src, dst)
    ensures HasPort(g, dst) && SamePortTypes(g, Disconnect(g, src, dst))
    ensures forall a, b :: Connected(Disconnect(g, src, dst), a, b) <==>
      Connected(g, a, b) && !(a == src && b == dst) && !(a == dst && b == src)
    ensures forall r :: HasPort(g, r) ==>
      Distinct(At(Disconnect(g, src, dst), r).conns) && |At(Disconnect(g, src, dst), r).conns| <= |At(g, r).conns|
  {
    assert Connected(g, dst, src);
    RemoveElems(At(g, src).conns, dst);
    RemoveElems(At(g, dst).conns, src);
    assert src != dst;
    forall r | HasPort(g, r)
      ensures Distinct(At(Disconnect(g, src, dst), r).conns)
      ensures |At(Disconnect(g, src, dst), r).conns| <= |At(g, r).conns|
    {
      assert Distinct(At(g, r).conns);
    }
  }

  lemma DisconnectKeepsWellFormed(g: Graph, src: PortRef, dst: PortRef)
    requires WellFormed(g) && Connected(g, src, dst)
    ensures HasPort(g, dst) && WellFormed(Disconnect(g, src, dst))
  {
    DisconnectConnections(g, src, dst);
    SamePortTypesKept(g, Disconnect(g, src, dst));
  }

  // ----- What the search for cycles foretells -----

  lemma SameEdgesSameCycles(e: Edges, f: Edges)
    requires forall a: nat, b: nat :: e(a, b) <==> f(a, b)
    ensures Cyclic(e) <==> Cyclic(f)
  {
    CyclesTransfer(e, f);
    CyclesTransfer(f, e);
  }

  lemma CyclesTransfer(e: Edges, f: Edges)
    requires forall a: nat, b: nat :: e(a, b) ==> f(a, b)
    ensures Cyclic(e) ==> Cyclic(f)
  {
    if Cyclic(e) {
      var c :| OnCycle(e, c);
      var p :| WalkFromTo(e, p, c, c) && |p| >= 2;
      assert Walk(f, p);
      CycleWitness(f, c, p);
    }
  }

  /** The search with the new connection as its extra edge decides whether the graph
      will be cyclic once the ports are connected. */
  lemma CheckForetellsConnect(g: Graph, src: PortRef, dst: PortRef)
    requires WellFormed(g) && Connectable(g, src, dst)
    ensures Cyclic(FlowEdges(Connect(g, src, dst))) <==> Cyclic(SearchEdges(g, Leg(src, dst), None))
  {
    var h := Connect(g, src, dst);
    ConnectConnections(g, src, dst);
    var e, f := FlowEdges(h), SearchEdges(g, Leg(src, dst), None);
    forall a: nat, b: nat ensures e(a, b) <==> f(a, b) {
      if Feeds(h, a, b) {
        var r, q :| Connected(h, r, q) && At(h, r).ptype.dir == Out && r.node == a && q.node == b;
        assert Considered(g, Leg(src, dst), None, Leg(r, q));
      }
      if Joins(g, Leg(src, dst), None, a, b) {
        var l :| Considered(g, Leg(src, dst), None, l) && l.src.node == a && l.dst.node == b;
        assert Connected(h, l.src, l.dst);
      }
    }
    SameEdgesSameCycles(e, f);
  }

  /** `h` has the connections of `g`, except for the old one, and the new one. */
  ghost predicate Moved(g: Graph, h: Graph, src: PortRef, oldDst: PortRef, newDst: PortRef) {
    SamePortTypes(g, h) && HasPort(g, src) &&
    forall a, b :: Connected(h, a, b) <==>
      (Connected(g, a, b) && !(a == src && b == oldDst) && !(a == oldDst && b == src)) ||
      (a == src && b == newDst) || (a == newDst && b == src)
  }

  lemma ReconnectMoves(g: Graph, src: PortRef, oldDst: PortRef, newDst: PortRef)
    requires WellFormed(g) && Connected(g, src, oldDst) && Connectable(g, src, newDst)
    ensures HasPort(g, oldDst) && Connectable(Disconnect(g, src, oldDst), src, newDst)
    ensures Moved(g, Connect(Disconnect(g, src, oldDst), src, newDst), src, oldDst, newDst)
  {
    DisconnectConnections(g, src, oldDst);
    var d := Disconnect(g, src, oldDst);
    assert At(d, newDst).conns == [];
    ConnectConnections(d, src, newDst);
  }

  lemma MovedEdges(g: Graph, h: Graph, src: PortRef, oldDst: PortRef, newDst: PortRef, a: nat, b: nat)
    requires Moved(g, h, src, oldDst, newDst) && At(g, src).ptype.dir == Out && HasPort(g, oldDst)
    requires At(g, oldDst).ptype.dir == In
    requires HasPort(g, newDst) && At(g, newDst).ptype.dir == In && newDst != oldDst
    ensures Feeds(h, a, b) <==> Joins(g, Leg(src, newDst), Some(Leg(src, oldDst)), a, b)
  {
    if Feeds(h, a, b) {
      var r, q :| Connected(h, r, q) && At(h, r).ptype.dir == Out && r.node == a && q.node == b;
      assert Considered(g, Leg(src, newDst), Some(Leg(src, oldDst)), Leg(r, q));
    }
    if Joins(g, Leg(src, newDst), Some(Leg(src, oldDst)), a, b) {
      var l :| Considered(g, Leg(src, newDst), Some(Leg(src, oldDst)), l) && l.src.node == a && l.dst.node == b;
      assert Connected(h, l.src, l.dst);
    }
  }

  /** With the old connection ignored, it does so for moving a connection to another
      input. */
  lemma CheckForetellsReconnect(g: Graph, src: PortRef, oldDst: PortRef, newDst: PortRef)
    requires WellFormed(g) && Connected(g, src, oldDst) && Connectable(g, src, newDst)
    ensures HasPort(g, oldDst) && Connectable(Disconnect(g, src, oldDst), src, newDst)
    ensures Cyclic(FlowEdges(Connect(Disconnect(g, src, oldDst), src, newDst))) <==>
      Cyclic(SearchEdges(g, Leg(src, newDst), Some(Leg(src, oldDst))))
  {
    ReconnectMoves(g, src, oldDst, newDst);
    OnlyProducer(g, src, oldDst);
    assert newDst != oldDst;
    hide Connect; hide Disconnect; hide Moved; hide Cyclic; hide WellFormed; hide Feeds; hide Joins;
    var h := Connect(Disconnect(g, src, oldDst), src, newDst);
    var e, f := FlowEdges(h), SearchEdges(g, Leg(src, newDst), Some(Leg(src, oldDst)));
    forall a: nat, b: nat ensures e(a, b) <==> f(a, b) {
      MovedEdges(g, h, src, oldDst, newDst, a, b);
    }
    SameEdgesSameCycles(e, f);
  }

  // ----- The graph as it is edited -----

  /** The generations once port `p` has lost its own. */
  function ClearedAt(gen: seq<seq<nat>>, p: PortRef): seq<seq<nat>>
    requires p.node < |gen| && p.idx < |gen[p.node]|
  {
    gen[p.node := gen[p.node][p.idx := 0]]
  }

  class EditedGraph {
    var graph: Graph
    var gen: seq<seq<nat>>

    ghost predicate Valid()
      reads this
    {
      WellFormed(graph) && |gen| == |graph| && forall n :: 0 <= n < |graph| ==> |gen[n]| == |graph[n]|
    }

    constructor (g: Graph, generations: seq<seq<nat>>)
      requires WellFormed(g) && |generations| == |g| && forall n :: 0 <= n < |g| ==> |generations[n]| == |g[n]|
      ensures Valid() && graph == g && gen == generations
    {
      graph := g;
      gen := generations;
    }

    /** am_dfg_port_connect_onesided; (re)connected inputs lose their generation. */
    method ConnectOneSided(p: PortRef, other: PortRef)
      requires HasPort(graph, p) && |gen| == |graph| && forall n :: 0 <= n < |graph| ==> |gen[n]| == |graph[n]|
      modifies this
      ensures graph == SetConns(old(graph), p, At(old(graph), p).conns + [other])
      ensures gen == if At(old(graph), p).ptype.dir == In then ClearedAt(old(gen), p) else old(gen)
    {
      var port := graph[p.node][p.idx];
      graph := graph[p.node := graph[p.node][p.idx := Port(port.ptype, port.conns + [other])]];
      if port.ptype.dir == In {
        var row: seq<nat> := gen[p.node][p.idx := 0];
        gen := gen[p.node := row];
      }
    }

    /** am_dfg_graph_connectp. Whether the port types are compatible is decided by
        the type registry. */
    method ConnectPorts(src: PortRef, dst: PortRef, compatible: bool) returns (failed: bool)
      requires Valid() && HasPort(graph, src) && HasPort(graph, dst)
      modifies this
      ensures Valid() && (failed <==>
        !compatible || At(old(graph), src).ptype.dir != Out || At(old(graph), dst).ptype.dir != In ||
        At(old(graph), dst).conns != [])
      ensures failed ==> graph == old(graph) && gen == old(gen)
      ensures !failed ==> graph == Connect(old(graph), src, dst) && gen == ClearedAt(old(gen), dst)
    {
      if graph[src.node][src.idx].ptype.dir != Out || graph[dst.node][dst.idx].ptype.dir != In {
        return true;
      }
      if !compatible {
        return true;
      }
      if |graph[dst.node][dst.idx].conns| != 0 {
        return true;
      }
      ConnectKeepsWellFormed(graph, src, dst);
      NodesKept(graph, Connect(graph, src, dst));
      NodesKept(graph, SetConns(graph, src, At(graph, src).conns + [dst]));
      ConnectOneSided(src, dst);
      ConnectOneSided(dst, src);
      return false;
    }

    /** am_dfg_port_disconnect_onesided. */
    method DisconnectOneSided(p: PortRef, other: PortRef) returns (failed: bool)
      requires HasPort(graph, p)
      modifies `graph
      ensures failed <==> other !in At(old(graph), p).conns
      ensures graph == if failed then old(graph) else SetConns(old(graph), p, Remove(At(old(graph), p).conns, other))
    {
      var port := graph[p.node][p.idx];
      var i := 0;
      while i < |port.conns|
        invariant 0 <= i <= |port.conns| && other !in port.conns[..i]
      {
        if port.conns[i] == other {
          RemoveAt(port.conns, other, i);
          graph := graph[p.node := graph[p.node][p.idx := Port(port.ptype, port.conns[..i] + port.conns[i + 1..])]];
          return false;
        }
        i := i + 1;
      }
      return true;
    }

    /** am_dfg_port_disconnect, whichever of the ports comes first. */
    method DisconnectPorts(src: PortRef, dst: PortRef) returns (failed: bool)
      requires Valid() && HasPort(graph, src) && HasPort(graph, dst)
      modifies `graph
      ensures Valid() && (failed <==> !Connected(old(graph), src, dst))
      ensures graph == if failed then old(graph) else Disconnect(old(graph), src, dst)
    {
      if Connected(graph, src, dst) {
        DisconnectKeepsWellFormed(graph, src, dst);
        DisconnectConnections(graph, src, dst);
        NodesKept(graph, Disconnect(graph, src, dst));
        assert Connected(graph, dst, src);
      }
      failed := DisconnectOneSided(src, dst);
      if failed {
        return;
      }
      failed := DisconnectOneSided(dst, src);
    }

    /** am_dfg_graph_reconnectp. If the new connection cannot be made, the old one is
        gone nevertheless. */
    method ReconnectPorts(src: PortRef, oldDst: PortRef, newDst: PortRef, compatible: bool) returns (failed: bool)
      requires Valid() && HasPort(graph, src) && HasPort(graph, oldDst) && HasPort(graph, newDst)
      modifies this
      ensures Valid()
      ensures !Connected(old(graph), src, oldDst) ==> failed && graph == old(graph)
      ensures Connected(old(graph), src, oldDst) ==>
        var d := Disconnect(old(graph), src, oldDst);
        (failed <==> !compatible || !Connectable(d, src, newDst)) &&
        graph == if failed then d else Connect(d, src, newDst)
      ensures gen == if failed then old(gen) else ClearedAt(old(gen), newDst)
    {
      if Connected(graph, src, oldDst) {
        DisconnectConnections(graph, src, oldDst);
      }
      failed := DisconnectPorts(src, oldDst);
      if failed {
        return;
      }
      failed := ConnectPorts(src, newDst, compatible);
    }
  }

  /** Connections that are only made after the search has found no cycle keep the
      graph free of cycles. */
  method ConnectUnlessCyclic(e: EditedGraph, src: PortRef, dst: PortRef, compatible: bool)
    returns (failed: bool, cycle: seq<Leg>)
    requires e.Valid() && HasPort(e.graph, src) && HasPort(e.graph, dst)
    requires !Cyclic(FlowEdges(e.graph))
    modifies e
    ensures e.Valid() && !Cyclic(FlowEdges(e.graph))
    ensures failed ==> e.graph == old(e.graph)
    ensures !failed ==> e.graph == Connect(old(e.graph), src, dst)
    ensures failed <==>
      !compatible || !Connectable(old(e.graph), src, dst) || Cyclic(FlowEdges(Connect(old(e.graph), src, dst)))
    ensures cycle != [] ==> SimpleCycle(old(e.graph), Leg(src, dst), None, cycle)
    ensures cycle != [] <==>
      compatible && Connectable(old(e.graph), src, dst) && Cyclic(FlowEdges(Connect(old(e.graph), src, dst)))
  {
    cycle := [];
    if e.graph[src.node][src.idx].ptype.dir != Out || e.graph[dst.node][dst.idx].ptype.dir != In ||
       |e.graph[dst.node][dst.idx].conns| != 0 || !compatible
    {
      return true, [];
    }
    CheckForetellsConnect(e.graph, src, dst);
    var found, legs, _, _, _ := HasCycle(e.graph, Leg(src, dst), None, true);
    if found {
      return true, legs;
    }
    failed := e.ConnectPorts(src, dst, compatible);
  }
}
