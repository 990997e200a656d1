/** What the scheduler keeps for every node, and the tests it makes on ports. */
module SchedulerState {
  import opened Digraph
  import opened DataflowGraph

  const UINT64_MAX: nat := 0xFFFF_FFFF_FFFF_FFFF

  /** Per node: negotiated and propagated masks, the counter of remaining
      dependencies and the data generation of each port. `list` is the
      scheduling list, front first; `done` records the nodes processed so far. */
  datatype State = State(
    neg: seq<Mask>,
    prop: seq<Mask>,
    deps: seq<nat>,
    gen: seq<seq<nat>>,
    list: seq<nat>,
    done: seq<nat>)

  /** The return code (ok means 0) together with the state left behind. */
  datatype Outcome = Outcome(ok: bool, st: State)

  ghost predicate NodesIn(l: seq<nat>, g: Graph) {
    forall n :: n in l ==> n < |g|
  }

  ghost predicate Shaped(g: Graph, s: State) {
    && |s.neg| == |s.prop| == |s.deps| == |s.gen| == |g|
    && (forall n :: 0 <= n < |g| ==> |s.gen[n]| == |g[n]|)
    && NodesIn(s.list, g)
  }

  /** am_dfg_schedule_list_push_front: list_del takes the node out of the list it is in,
      if any. */
  function PushFront(l: seq<nat>, n: nat): seq<nat> {
    [n] + Remove(l, n)
  }

  lemma PushFrontElems(l: seq<nat>, n: nat)
    requires Distinct(l)
    ensures Distinct(PushFront(l, n)) && forall x :: x in PushFront(l, n) <==> x in l || x == n
  {
    RemoveElems(l, n);
    var r := Remove(l, n);
    forall i, j | 0 <= i < j < |[n] + r| ensures ([n] + r)[i] != ([n] + r)[j] {
      assert r[j - 1] in r;
    }
  }

  /** am_dfg_port_activated. */
  predicate Activated(g: Graph, neg: seq<Mask>, gen: seq<seq<nat>>, r: PortRef)
    requires RefsExist(g) && HasPort(g, r) && |neg| == |g| == |gen|
    requires forall n :: 0 <= n < |g| ==> |gen[n]| == |g[n]|
  {
    var p := At(g, r);
    if p.conns == [] then
      false
    else if p.ptype.dir == In then
      InputActivated(g, neg, r)
    else
      r.idx in neg[r.node].pushNew ||
      (r.idx in neg[r.node].pushOld &&
       exists q :: q in p.conns &&
         (assert Connected(g, r, q);
         q.idx in neg[q.node].pullOld ||
          (q.idx in neg[q.node].pullNew && gen[r.node][r.idx] != gen[q.node][q.idx])))
  }

  /** The part of the test that concerns input ports. */
  predicate InputActivated(g: Graph, neg: seq<Mask>, r: PortRef)
    requires RefsExist(g) && HasPort(g, r) && |neg| == |g|
  {
    At(g, r).conns != [] &&
    (r.idx in neg[r.node].pullOld ||
     (r.idx in neg[r.node].pullNew &&
      (assert Connected(g, r, Producer(g, r));
       Producer(g, r).idx in neg[Producer(g, r).node].pushNew)))
  }

  /** am_dfg_output_port_inc_generation: wraps around to 1, never to 0. */
  function NextGeneration(x: nat): (r: nat)
    ensures r != 0
    ensures x <= UINT64_MAX ==> r <= UINT64_MAX && r != x
  {
    if x == UINT64_MAX then 1 else x + 1
  }
}
