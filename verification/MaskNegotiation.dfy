/** Negotiation of port masks: requirements of a node are offered to the nodes it
    is connected to until nothing changes any more. */
module MaskNegotiation {
  import opened Digraph
  import opened DataflowGraph
  import opened SchedulerState

  // ----- What the program does -----

  /** Offers the mask of port `q` to its node; a node whose negotiated mask grows
      moves to the front of the list. */
  function Offer(g: Graph, s: State, q: PortRef, k: Freshness): State
    requires HasPort(g, q) && |s.neg| == |g|
  {
    var m := At(g, q).ptype.MaskFor(k);
    if m.SubsetOf(s.neg[q.node]) then
      s
    else
      s.(neg := s.neg[q.node := s.neg[q.node].Apply(m)], list := PushFront(s.list, q.node))
  }

  ghost predicate PortsExist(g: Graph, qs: seq<PortRef>) {
    forall q :: q in qs ==> HasPort(g, q)
  }

  function OfferAll(g: Graph, s: State, qs: seq<PortRef>, k: Freshness): (t: State)
    requires PortsExist(g, qs) && |s.neg| == |g|
    ensures |t.neg| == |g|
    decreases |qs|
  {
    if qs == [] then s else OfferAll(g, Offer(g, s, qs[0], k), qs[1..], k)
  }

  /** One am_dfg_port_propagate function: the ports of `n` in `bits`, from index
      `i` on, offer the masks of the ports they are connected to. A port of the
      wrong direction stops the negotiation. */
  function Propagate(g: Graph, s: State, n: nat, bits: set<nat>, d: Direction, k: Freshness, i: nat): (r: Outcome)
    requires RefsExist(g) && n < |g| && i <= |g[n]| && |s.neg| == |g|
    ensures |r.st.neg| == |g|
    decreases |g[n]| - i
  {
    if i == |g[n]| then
      Outcome(true, s)
    else if i !in bits then
      Propagate(g, s, n, bits, d, k, i + 1)
    else if g[n][i].ptype.dir != d then
      Outcome(false, s)
    else
      PortConnsExist(g, n, i);
      Propagate(g, OfferAll(g, s, g[n][i].conns, k), n, bits, d, k, i + 1)
  }

  lemma PortConnsExist(g: Graph, n: nat, i: nat)
    requires RefsExist(g) && n < |g| && i < |g[n]|
    ensures PortsExist(g, g[n][i].conns)
  {
    forall q | q in g[n][i].conns ensures HasPort(g, q) {
      assert Connected(g, PortRef(n, i), q);
    }
  }

  /** The four propagations of one evaluation, in the order of the program. */
  function PropagateAll(g: Graph, s: State, n: nat, m: Mask): (r: Outcome)
    requires RefsExist(g) && n < |g| && |s.neg| == |g|
    ensures |r.st.neg| == |g|
  {
    var r1 := Propagate(g, s, n, m.pullNew, In, New, 0);
    if !r1.ok then r1 else
    var r2 := Propagate(g, r1.st, n, m.pullOld, In, Old, 0);
    if !r2.ok then r2 else
    var r3 := Propagate(g, r2.st, n, m.pushNew, Out, New, 0);
    if !r3.ok then r3 else
    Propagate(g, r3.st, n, m.pushOld, Out, Old, 0)
  }

  /** The ports of `n` that pull data and are activated. */
  function ActiveInputs(g: Graph, neg: seq<Mask>, gen: seq<seq<nat>>, n: nat): set<nat>
    requires RefsExist(g) && n < |g| && |neg| == |g| == |gen|
    requires forall m :: 0 <= m < |g| ==> |gen[m]| == |g[m]|
  {
    set i | 0 <= i < |g[n]| && i in neg[n].pullOld + neg[n].pullNew && Activated(g, neg, gen, PortRef(n, i))
  }

  /** The end of an evaluation: everything negotiated counts as propagated, and the
      incoming dependencies are counted afresh. */
  function Settle(g: Graph, s: State, n: nat): State
    requires RefsExist(g) && Shaped(g, s) && n < |g|
  {
    s.(prop := s.prop[n := s.prop[n].Apply(s.neg[n])],
       deps := s.deps[n := |ActiveInputs(g, s.neg, s.gen, n)|])
  }

  /** am_dfg_schedule_node_eval_dependencies. */
  function Evaluate(g: Graph, s: State, n: nat): (r: Outcome)
    requires RefsExist(g) && Shaped(g, s) && n < |g|
    ensures Shaped(g, r.st)
  {
    var r := PropagateAll(g, s, n, s.neg[n].Diff(s.prop[n]));
    PropagateAllShape(g, s, n, s.neg[n].Diff(s.prop[n]));
    if !r.ok then r else Outcome(true, Settle(g, r.st, n))
  }

  // ----- What one offer, and a sequence of offers, can change -----

  /** `t` comes from `s` by offers: masks only grow, nodes whose mask grew are in
      the list, and nothing else changes. */
  ghost predicate Grown(s: State, t: State) {
    && |t.neg| == |s.neg|
    && t.prop == s.prop && t.deps == s.deps && t.gen == s.gen && t.done == s.done
    && (forall n :: 0 <= n < |s.neg| ==> s.neg[n].SubsetOf(t.neg[n]))
    && (forall n :: 0 <= n < |s.neg| && t.neg[n] != s.neg[n] ==> n in t.list)
    && (forall n :: n in s.list ==> n in t.list)
    && (forall n :: n in t.list ==> n in s.list || (n < |s.neg| && t.neg[n] != s.neg[n]))
    && (Distinct(s.list) ==> Distinct(t.list))
    && (t.neg == s.neg ==> t.list == s.list)
  }

  lemma SubsetAntisym(a: Mask, b: Mask)
    requires a.SubsetOf(b) && b.SubsetOf(a)
    ensures a == b
  {
  }

  lemma GrownTrans(s: State, t: State, u: State)
    requires Grown(s, t) && Grown(t, u)
    ensures Grown(s, u)
  {
    forall n | 0 <= n < |s.neg| && t.neg[n] != s.neg[n] ensures u.neg[n] != s.neg[n] {
      assert t.neg[n].SubsetOf(u.neg[n]);
      if u.neg[n] == s.neg[n] { SubsetAntisym(s.neg[n], t.neg[n]); }
    }
    if u.neg == s.neg {
      assert t.neg == s.neg;
    }
  }

  lemma OfferGrows(g: Graph, s: State, q: PortRef, k: Freshness)
    requires HasPort(g, q) && |s.neg| == |g| && Distinct(s.list)
    ensures Grown(s, Offer(g, s, q, k))
    ensures At(g, q).ptype.MaskFor(k).SubsetOf(Offer(g, s, q, k).neg[q.node])
    ensures forall n :: 0 <= n < |g| && n != q.node ==> Offer(g, s, q, k).neg[n] == s.neg[n]
  {
    PushFrontElems(s.list, q.node);
  }

  /** Some port in `qs` belongs to node `m`. */
  ghost predicate Addressed(qs: seq<PortRef>, m: nat) {
    exists q :: q in qs && q.node == m
  }

  lemma {:induction false} OfferAllGrows(g: Graph, s: State, qs: seq<PortRef>, k: Freshness)
    requires PortsExist(g, qs) && |s.neg| == |g| && Distinct(s.list)
    ensures Grown(s, OfferAll(g, s, qs, k))
    decreases |qs|
  {
    if qs != [] {
      var s1 := Offer(g, s, qs[0], k);
      OfferGrows(g, s, qs[0], k);
      OfferAllGrows(g, s1, qs[1..], k);
      GrownTrans(s, s1, OfferAll(g, s1, qs[1..], k));
    }
  }

  lemma {:induction false} OfferAllArrives(g: Graph, s: State, qs: seq<PortRef>, k: Freshness, q: PortRef)
    requires PortsExist(g, qs) && |s.neg| == |g| && Distinct(s.list) && q in qs
    ensures At(g, q).ptype.MaskFor(k).SubsetOf(OfferAll(g, s, qs, k).neg[q.node])
    decreases |qs|
  {
    var s1 := Offer(g, s, qs[0], k);
    OfferGrows(g, s, qs[0], k);
    OfferAllGrows(g, s1, qs[1..], k);
    if q == qs[0] {
      assert s1.neg[q.node].SubsetOf(OfferAll(g, s1, qs[1..], k).neg[q.node]);
    } else {
      OfferAllArrives(g, s1, qs[1..], k, q);
    }
  }

  lemma {:induction false} OfferAllUntouched(g: Graph, s: State, qs: seq<PortRef>, k: Freshness, n: nat)
    requires PortsExist(g, qs) && |s.neg| == |g| && n < |g| && !Addressed(qs, n)
    ensures OfferAll(g, s, qs, k).neg[n] == s.neg[n]
    decreases |qs|
  {
    if qs != [] {
      assert qs[0] in qs;
      assert !Addressed(qs[1..], n) by {
        forall q | q in qs[1..] ensures q.node != n {
          assert q in qs;
        }
      }
      OfferAllUntouched(g, Offer(g, s, qs[0], k), qs[1..], k, n);
    }
  }

  /** Node `m` is connected to a port of `n` whose index is in `bits`. */
  ghost predicate Neighbour(g: Graph, n: nat, bits: set<nat>, m: nat) {
    exists i, q :: i in bits && Connected(g, PortRef(n, i), q) && q.node == m
  }

  /** The rule that bit `i` of node `n` imposes on the nodes connected to it. */
  ghost predicate Honoured(g: Graph, neg: seq<Mask>, n: nat, i: nat, k: Freshness)
    requires |neg| == |g|
  {
    forall q :: Connected(g, PortRef(n, i), q) && HasPort(g, q) ==>
      At(g, q).ptype.MaskFor(k).SubsetOf(neg[q.node])
  }

  lemma HonouredMonotone(g: Graph, a: seq<Mask>, b: seq<Mask>, n: nat, i: nat, k: Freshness)
    requires |a| == |g| == |b| && Honoured(g, a, n, i, k)
    requires forall m :: 0 <= m < |g| ==> a[m].SubsetOf(b[m])
    ensures Honoured(g, b, n, i, k)
  {
  }

  lemma {:induction false} PropagateGrows(g: Graph, s: State, n: nat, bits: set<nat>, d: Direction, k: Freshness,
                                          i: nat)
    requires RefsExist(g) && n < |g| && i <= |g[n]| && |s.neg| == |g| && Distinct(s.list)
    ensures Grown(s, Propagate(g, s, n, bits, d, k, i).st)
    decreases |g[n]| - i
  {
    if i < |g[n]| {
      if i !in bits {
        PropagateGrows(g, s, n, bits, d, k, i + 1);
      } else if g[n][i].ptype.dir == d {
        PortConnsExist(g, n, i);
        var t := OfferAll(g, s, g[n][i].conns, k);
        OfferAllGrows(g, s, g[n][i].conns, k);
        PropagateGrows(g, t, n, bits, d, k, i + 1);
        GrownTrans(s, t, Propagate(g, t, n, bits, d, k, i + 1).st);
      }
    }
  }

  lemma {:induction false} PropagateUntouched(g: Graph, s: State, n: nat, bits: set<nat>, d: Direction, k: Freshness,
                                              i: nat, m: nat)
    requires RefsExist(g) && n < |g| && i <= |g[n]| && |s.neg| == |g| && m < |g| && !Neighbour(g, n, bits, m)
    ensures Propagate(g, s, n, bits, d, k, i).st.neg[m] == s.neg[m]
    decreases |g[n]| - i
  {
    if i < |g[n]| {
      if i !in bits {
        PropagateUntouched(g, s, n, bits, d, k, i + 1, m);
      } else if g[n][i].ptype.dir == d {
        PortConnsExist(g, n, i);
        var qs := g[n][i].conns;
        assert !Addressed(qs, m) by {
          forall q | q in qs ensures q.node != m {
            assert Connected(g, PortRef(n, i), q);
          }
        }
        OfferAllUntouched(g, s, qs, k, m);
        PropagateUntouched(g, OfferAll(g, s, qs, k), n, bits, d, k, i + 1, m);
      }
    }
  }

  lemma OfferAllHonours(g: Graph, s: State, n: nat, i: nat, k: Freshness)
    requires RefsExist(g) && n < |g| && i < |g[n]| && |s.neg| == |g| && Distinct(s.list)
    ensures PortsExist(g, g[n][i].conns)
    ensures Honoured(g, OfferAll(g, s, g[n][i].conns, k).neg, n, i, k)
  {
    PortConnsExist(g, n, i);
    var qs := g[n][i].conns;
    forall q | Connected(g, PortRef(n, i), q) && HasPort(g, q)
      ensures At(g, q).ptype.MaskFor(k).SubsetOf(OfferAll(g, s, qs, k).neg[q.node])
    {
      OfferAllArrives(g, s, qs, k, q);
    }
  }

  /** A propagation that succeeds has acted on all its bits from `i` on; one that
      fails has met a port of the wrong direction. */
  lemma {:induction false} PropagateHonours(g: Graph, s: State, n: nat, bits: set<nat>, d: Direction, k: Freshness,
                                            i: nat)
    requires RefsExist(g) && n < |g| && i <= |g[n]| && |s.neg| == |g| && Distinct(s.list)
    ensures var r := Propagate(g, s, n, bits, d, k, i);
      r.ok ==> forall j :: i <= j < |g[n]| && j in bits ==> g[n][j].ptype.dir == d && Honoured(g, r.st.neg, n, j, k)
    ensures var r := Propagate(g, s, n, bits, d, k, i);
      !r.ok ==> exists j :: j in bits && j < |g[n]| && g[n][j].ptype.dir != d
    decreases |g[n]| - i
  {
    if i < |g[n]| {
      if i !in bits {
        PropagateHonours(g, s, n, bits, d, k, i + 1);
      } else if g[n][i].ptype.dir == d {
        OfferAllHonours(g, s, n, i, k);
        var t := OfferAll(g, s, g[n][i].conns, k);
        OfferAllGrows(g, s, g[n][i].conns, k);
        PropagateHonours(g, t, n, bits, d, k, i + 1);
        PropagateGrows(g, t, n, bits, d, k, i + 1);
        HonouredMonotone(g, t.neg, Propagate(g, t, n, bits, d, k, i + 1).st.neg, n, i, k);
      }
    }
  }

  lemma PropagateShape(g: Graph, s: State, n: nat, bits: set<nat>, d: Direction, k: Freshness, i: nat)
    requires RefsExist(g) && n < |g| && i <= |g[n]| && Shaped(g, s)
    ensures Shaped(g, Propagate(g, s, n, bits, d, k, i).st)
    decreases |g[n]| - i
  {
    if i < |g[n]| && (i !in bits || g[n][i].ptype.dir == d) {
      if i !in bits {
        PropagateShape(g, s, n, bits, d, k, i + 1);
      } else {
        PortConnsExist(g, n, i);
        OfferAllShape(g, s, g[n][i].conns, k);
        PropagateShape(g, OfferAll(g, s, g[n][i].conns, k), n, bits, d, k, i + 1);
      }
    }
  }

  lemma {:induction false} RemoveIn(l: seq<nat>, n: nat)
    ensures forall x :: x in Remove(l, n) ==> x in l
  {
    if l != [] && l[0] != n {
      RemoveIn(l[1..], n);
    }
  }

  lemma {:induction false} OfferAllShape(g: Graph, s: State, qs: seq<PortRef>, k: Freshness)
    requires PortsExist(g, qs) && Shaped(g, s)
    ensures Shaped(g, OfferAll(g, s, qs, k))
    decreases |qs|
  {
    if qs != [] {
      RemoveIn(s.list, qs[0].node);
      OfferAllShape(g, Offer(g, s, qs[0], k), qs[1..], k);
    }
  }

  lemma PropagateAllShape(g: Graph, s: State, n: nat, m: Mask)
    requires RefsExist(g) && n < |g| && Shaped(g, s)
    ensures Shaped(g, PropagateAll(g, s, n, m).st)
  {
    PropagateShape(g, s, n, m.pullNew, In, New, 0);
    var r1 := Propagate(g, s, n, m.pullNew, In, New, 0);
    PropagateShape(g, r1.st, n, m.pullOld, In, Old, 0);
    var r2 := Propagate(g, r1.st, n, m.pullOld, In, Old, 0);
    PropagateShape(g, r2.st, n, m.pushNew, Out, New, 0);
    var r3 := Propagate(g, r2.st, n, m.pushNew, Out, New, 0);
    PropagateShape(g, r3.st, n, m.pushOld, Out, Old, 0);
  }

  function AllBits(m: Mask): set<nat> {
    m.pullNew + m.pullOld + m.pushNew + m.pushOld
  }

  /** `t` comes from `s` by offers to nodes connected to ports of `n` in `m`. */
  ghost predicate Spread(g: Graph, s: State, t: State, n: nat, m: Mask) {
    && |s.neg| == |g|
    && Grown(s, t)
    && forall x :: 0 <= x < |g| && t.neg[x] != s.neg[x] ==> Neighbour(g, n, AllBits(m), x)
  }

  /** The rules imposed by the bits `m` of node `n` hold. */
  ghost predicate HonoursAll(g: Graph, neg: seq<Mask>, n: nat, m: Mask)
    requires |neg| == |g|
  {
    forall d: Direction, k: Freshness, i: nat :: i in m.Bits(d, k) ==> Honoured(g, neg, n, i, k)
  }

  ghost predicate HonoursKind(g: Graph, neg: seq<Mask>, n: nat, bits: set<nat>, d: Direction, k: Freshness)
    requires |neg| == |g| && n < |g|
  {
    forall j :: j in bits && j < |g[n]| ==> g[n][j].ptype.dir == d && Honoured(g, neg, n, j, k)
  }

  lemma SpreadStep(g: Graph, s: State, t: State, n: nat, m: Mask, bits: set<nat>, d: Direction, k: Freshness)
    requires RefsExist(g) && n < |g| && Spread(g, s, t, n, m) && Distinct(s.list) && bits <= AllBits(m)
    ensures var u := Propagate(g, t, n, bits, d, k, 0);
      Spread(g, s, u.st, n, m) && (u.ok ==> HonoursKind(g, u.st.neg, n, bits, d, k)) &&
      (forall x :: 0 <= x < |g| ==> t.neg[x].SubsetOf(u.st.neg[x])) &&
      (!u.ok ==> exists j :: j in bits && j < |g[n]| && g[n][j].ptype.dir != d)
  {
    var u := Propagate(g, t, n, bits, d, k, 0).st;
    PropagateGrows(g, t, n, bits, d, k, 0);
    PropagateHonours(g, t, n, bits, d, k, 0);
    GrownTrans(s, t, u);
    forall x | 0 <= x < |g| && u.neg[x] != s.neg[x] ensures Neighbour(g, n, AllBits(m), x) {
      if t.neg[x] == s.neg[x] {
        if !Neighbour(g, n, bits, x) { PropagateUntouched(g, t, n, bits, d, k, 0, x); }
        var i, q :| i in bits && Connected(g, PortRef(n, i), q) && q.node == x;
      }
    }
  }

  lemma HonoursKindMonotone(g: Graph, a: seq<Mask>, b: seq<Mask>, n: nat, bits: set<nat>, d: Direction, k: Freshness)
    requires |a| == |g| == |b| && n < |g| && HonoursKind(g, a, n, bits, d, k)
    requires forall m :: 0 <= m < |g| ==> a[m].SubsetOf(b[m])
    ensures HonoursKind(g, b, n, bits, d, k)
  {
    forall j | j in bits && j < |g[n]| ensures Honoured(g, b, n, j, k) {
      HonouredMonotone(g, a, b, n, j, k);
    }
  }

  lemma HonoursKinds(g: Graph, neg: seq<Mask>, n: nat, m: Mask)
    requires |neg| == |g| && n < |g| && Bounded(m, |g[n]|)
    requires forall d, k :: HonoursKind(g, neg, n, m.Bits(d, k), d, k)
    ensures HonoursAll(g, neg, n, m) && Typed(m, g[n])
  {
    forall d: Direction, k: Freshness, i: nat | i in m.Bits(d, k)
      ensures Honoured(g, neg, n, i, k) && g[n][i].ptype.dir == d
    {
      assert HonoursKind(g, neg, n, m.Bits(d, k), d, k);
    }
  }

  /** The propagations of the kinds in `kinds` have been carried out. */
  ghost predicate Acted(g: Graph, s: State, t: State, n: nat, m: Mask, kinds: set<(Direction, Freshness)>) {
    && n < |g| && Spread(g, s, t, n, m)
    && forall d, k :: (d, k) in kinds ==> HonoursKind(g, t.neg, n, m.Bits(d, k), d, k)
  }

  lemma ActedStep(g: Graph, s: State, t: State, n: nat, m: Mask, kinds: set<(Direction, Freshness)>, d: Direction,
                  k: Freshness)
    requires RefsExist(g) && Acted(g, s, t, n, m, kinds) && Distinct(s.list)
    ensures var u := Propagate(g, t, n, m.Bits(d, k), d, k, 0);
      Spread(g, s, u.st, n, m) && (u.ok ==> Acted(g, s, u.st, n, m, kinds + {(d, k)})) && (!u.ok ==> !Typed(m, g[n]))
  {
    var u := Propagate(g, t, n, m.Bits(d, k), d, k, 0);
    SpreadStep(g, s, t, n, m, m.Bits(d, k), d, k);
    if u.ok {
      forall d', k' | (d', k') in kinds + {(d, k)} ensures HonoursKind(g, u.st.neg, n, m.Bits(d', k'), d', k') {
        if (d', k') in kinds {
          HonoursKindMonotone(g, t.neg, u.st.neg, n, m.Bits(d', k'), d', k');
        }
      }
    } else {
      NotTyped(g, n, m, d, k);
    }
  }

  lemma PropagateAllSpreads(g: Graph, s: State, n: nat, m: Mask)
    requires RefsExist(g) && n < |g| && |s.neg| == |g| && Distinct(s.list) && Bounded(m, |g[n]|)
    ensures var r := PropagateAll(g, s, n, m);
      Spread(g, s, r.st, n, m) && (r.ok <==> Typed(m, g[n])) && (r.ok ==> HonoursAll(g, r.st.neg, n, m))
  {
    ActedStep(g, s, s, n, m, {}, In, New);
    var r1 := Propagate(g, s, n, m.pullNew, In, New, 0);
    if r1.ok {
      ActedStep(g, s, r1.st, n, m, {(In, New)}, In, Old);
      var r2 := Propagate(g, r1.st, n, m.pullOld, In, Old, 0);
      if r2.ok {
        PushesSpread(g, s, r2.st, n, m);
      }
    }
  }

  lemma PushesSpread(g: Graph, s: State, t: State, n: nat, m: Mask)
    requires RefsExist(g) && Acted(g, s, t, n, m, {(In, New), (In, Old)}) && Distinct(s.list) && Bounded(m, |g[n]|)
    ensures var r3 := Propagate(g, t, n, m.pushNew, Out, New, 0);
      var r := if !r3.ok then r3 else Propagate(g, r3.st, n, m.pushOld, Out, Old, 0);
      Spread(g, s, r.st, n, m) && (r.ok <==> Typed(m, g[n])) && (r.ok ==> HonoursAll(g, r.st.neg, n, m))
  {
    var kinds := {(In, New), (In, Old)};
    ActedStep(g, s, t, n, m, kinds, Out, New);
    var r3 := Propagate(g, t, n, m.pushNew, Out, New, 0);
    if r3.ok {
      ActedStep(g, s, r3.st, n, m, kinds + {(Out, New)}, Out, Old);
      var r4 := Propagate(g, r3.st, n, m.pushOld, Out, Old, 0);
      if r4.ok {
        forall d, k ensures HonoursKind(g, r4.st.neg, n, m.Bits(d, k), d, k) {
          assert (d.In? || d.Out?) && (k.New? || k.Old?);
          assert (d, k) in kinds + {(Out, New)} + {(Out, Old)};
        }
        HonoursKinds(g, r4.st.neg, n, m);
      }
    }
  }

  lemma NotTyped(g: Graph, n: nat, m: Mask, d: Direction, k: Freshness)
    requires n < |g| && exists j :: j in m.Bits(d, k) && j < |g[n]| && g[n][j].ptype.dir != d
    ensures !Typed(m, g[n])
  {
  }

  // ----- The invariant of the negotiation -----

  /** A set of nodes closed under connections: a union of connected components. */
  ghost predicate Scope(g: Graph, c: set<nat>) {
    (forall n :: n in c ==> n < |g|) &&
    forall r, q :: Connected(g, r, q) && r.node in c ==> q.node in c
  }

  ghost predicate NegBounded(g: Graph, neg: seq<Mask>) {
    |neg| == |g| && forall n :: 0 <= n < |g| ==> Bounded(neg[n], |g[n]|)
  }

  /** What each step of the negotiation keeps: propagated masks lie within the
      negotiated ones, agree with them off the list, and have been acted upon. */
  ghost predicate Negotiating(g: Graph, c: set<nat>, s: State) {
    && Shaped(g, s) && Distinct(s.list) && NegBounded(g, s.neg)
    && (forall n :: n in s.list ==> n in c)
    && (forall n :: n in c && n < |g| ==> s.prop[n].SubsetOf(s.neg[n]))
    && (forall n :: n in c && n < |g| && n !in s.list ==> s.prop[n] == s.neg[n])
    && (forall n :: n in c && n < |g| ==> HonoursAll(g, s.neg, n, s.prop[n]) && Typed(s.prop[n], g[n]))
  }

  /** All rules hold on the nodes of `c`. */
  ghost predicate Closed(g: Graph, c: set<nat>, neg: seq<Mask>) {
    |neg| == |g| && forall n :: n in c && n < |g| ==> HonoursAll(g, neg, n, neg[n]) && Typed(neg[n], g[n])
  }

  ghost predicate Below(c: set<nat>, a: seq<Mask>, b: seq<Mask>) {
    |a| == |b| && forall n :: n in c && n < |a| ==> a[n].SubsetOf(b[n])
  }

  lemma DiffMask(a: Mask, b: Mask)
    requires b.SubsetOf(a)
    ensures a.Diff(b).SubsetOf(a) && b.Apply(a) == a
    ensures forall d: Direction, k: Freshness, i: nat :: i in a.Bits(d, k) ==>
      i in b.Bits(d, k) || i in a.Diff(b).Bits(d, k)
  {
    forall d: Direction, k: Freshness, i: nat | i in a.Bits(d, k)
      ensures i in b.Bits(d, k) || i in a.Diff(b).Bits(d, k)
    {
    }
  }

  /** What the operations on masks do to each bit. */
  lemma MaskOperations(a: Mask, b: Mask)
    ensures forall d: Direction, k: Freshness, i: nat ::
      i in a.Apply(b).Bits(d, k) <==> i in a.Bits(d, k) || i in b.Bits(d, k)
    ensures forall d: Direction, k: Freshness, i: nat ::
      i in a.Diff(b).Bits(d, k) <==> (i in a.Bits(d, k) <==> i !in b.Bits(d, k))
    ensures a.SubsetOf(b) <==> forall d: Direction, k: Freshness, i: nat :: i in a.Bits(d, k) ==> i in b.Bits(d, k)
  {
    if forall d: Direction, k: Freshness, i: nat :: i in a.Bits(d, k) ==> i in b.Bits(d, k) {
      assert forall i :: i in a.Bits(In, New) ==> i in b.Bits(In, New);
      assert forall i :: i in a.Bits(In, Old) ==> i in b.Bits(In, Old);
      assert forall i :: i in a.Bits(Out, New) ==> i in b.Bits(Out, New);
      assert forall i :: i in a.Bits(Out, Old) ==> i in b.Bits(Out, Old);
    }
  }

  // ----- Offers never exceed what an upper bound already grants -----

  lemma {:induction false} OfferAllBelow(g: Graph, c: set<nat>, s: State, qs: seq<PortRef>, k: Freshness,
                                         top: seq<Mask>)
    requires PortsExist(g, qs) && |s.neg| == |g| && Below(c, s.neg, top)
    requires forall q :: q in qs ==> At(g, q).ptype.MaskFor(k).SubsetOf(top[q.node])
    ensures Below(c, OfferAll(g, s, qs, k).neg, top)
    decreases |qs|
  {
    if qs != [] {
      assert qs[0] in qs;
      OfferAllBelow(g, c, Offer(g, s, qs[0], k), qs[1..], k, top);
    }
  }

  lemma {:induction false} PropagateBelow(g: Graph, c: set<nat>, s: State, n: nat, bits: set<nat>, d: Direction,
                                          k: Freshness, i: nat, top: seq<Mask>)
    requires RefsExist(g) && n < |g| && i <= |g[n]| && |s.neg| == |g| && Below(c, s.neg, top)
    requires forall j :: j in bits ==> Honoured(g, top, n, j, k)
    ensures Below(c, Propagate(g, s, n, bits, d, k, i).st.neg, top)
    decreases |g[n]| - i
  {
    if i < |g[n]| {
      if i !in bits {
        PropagateBelow(g, c, s, n, bits, d, k, i + 1, top);
      } else if g[n][i].ptype.dir == d {
        PortConnsExist(g, n, i);
        var qs := g[n][i].conns;
        forall q | q in qs ensures At(g, q).ptype.MaskFor(k).SubsetOf(top[q.node]) {
          assert Connected(g, PortRef(n, i), q);
        }
        OfferAllBelow(g, c, s, qs, k, top);
        PropagateBelow(g, c, OfferAll(g, s, qs, k), n, bits, d, k, i + 1, top);
      }
    }
  }

  lemma PropagateAllBelow(g: Graph, c: set<nat>, s: State, n: nat, m: Mask, top: seq<Mask>)
    requires RefsExist(g) && n < |g| && |s.neg| == |g| && Below(c, s.neg, top) && HonoursAll(g, top, n, m)
    ensures Below(c, PropagateAll(g, s, n, m).st.neg, top)
  {
    PropagateBelow(g, c, s, n, m.Bits(In, New), In, New, 0, top);
    var r1 := Propagate(g, s, n, m.pullNew, In, New, 0);
    PropagateBelow(g, c, r1.st, n, m.Bits(In, Old), In, Old, 0, top);
    var r2 := Propagate(g, r1.st, n, m.pullOld, In, Old, 0);
    PropagateBelow(g, c, r2.st, n, m.Bits(Out, New), Out, New, 0, top);
    var r3 := Propagate(g, r2.st, n, m.pushNew, Out, New, 0);
    PropagateBelow(g, c, r3.st, n, m.Bits(Out, Old), Out, Old, 0, top);
  }

  ghost function FullMask(n: nat): Mask {
    Mask(Indexes(n), Indexes(n), Indexes(n), Indexes(n))
  }

  ghost function FullMasks(g: Graph): (f: seq<Mask>)
    ensures |f| == |g|
  {
    seq(|g|, n requires 0 <= n < |g| => FullMask(|g[n]|))
  }

  lemma BoundedIsBelowFull(m: Mask, n: nat)
    ensures Bounded(m, n) <==> m.SubsetOf(FullMask(n))
  {
    if Bounded(m, n) {
      forall d: Direction, k: Freshness, i: nat | i in m.Bits(d, k) ensures i < n {}
      assert forall i :: i in m.Bits(In, New) ==> i < n;
      assert forall i :: i in m.Bits(In, Old) ==> i < n;
      assert forall i :: i in m.Bits(Out, New) ==> i < n;
      assert forall i :: i in m.Bits(Out, Old) ==> i < n;
    }
  }

  lemma NegBoundedIsBelowFull(g: Graph, neg: seq<Mask>)
    requires |neg| == |g|
    ensures NegBounded(g, neg) <==> Below(AllNodes(g), neg, FullMasks(g))
  {
    forall n | 0 <= n < |g| ensures Bounded(neg[n], |g[n]|) <==> neg[n].SubsetOf(FullMasks(g)[n]) {
      BoundedIsBelowFull(neg[n], |g[n]|);
    }
    if Below(AllNodes(g), neg, FullMasks(g)) {
      forall n | 0 <= n < |g| ensures neg[n].SubsetOf(FullMasks(g)[n]) {
        assert n in AllNodes(g);
      }
    }
  }

  lemma PropagateAllBounded(g: Graph, s: State, n: nat, m: Mask)
    requires RefsExist(g) && MasksBounded(g) && n < |g| && NegBounded(g, s.neg)
    ensures NegBounded(g, PropagateAll(g, s, n, m).st.neg)
  {
    var top := FullMasks(g);
    NegBoundedIsBelowFull(g, s.neg);
    forall d: Direction, k: Freshness, i: nat | i in m.Bits(d, k) ensures Honoured(g, top, n, i, k) {
      forall q | Connected(g, PortRef(n, i), q) && HasPort(g, q)
        ensures At(g, q).ptype.MaskFor(k).SubsetOf(top[q.node])
      {
        BoundedIsBelowFull(At(g, q).ptype.MaskFor(k), |g[q.node]|);
      }
    }
    PropagateAllBelow(g, AllNodes(g), s, n, m, top);
    NegBoundedIsBelowFull(g, PropagateAll(g, s, n, m).st.neg);
  }

  // ----- Termination: bits still unset, then the length of the list -----

  ghost function Missing(g: Graph, neg: seq<Mask>): set<(nat, Direction, Freshness, nat)>
    requires |neg| == |g|
  {
    set n: nat, d: Direction, k: Freshness, i: nat |
      n < |g| && i < |g[n]| && i !in neg[n].Bits(d, k) :: (n, d, k, i)
  }

  lemma GrowthFillsMissing(g: Graph, a: seq<Mask>, b: seq<Mask>)
    requires |a| == |g| && NegBounded(g, b)
    requires forall n :: 0 <= n < |g| ==> a[n].SubsetOf(b[n])
    ensures a == b || Missing(g, b) < Missing(g, a)
  {
    if a != b {
      var n :| 0 <= n < |g| && a[n] != b[n];
      var d, k, i := NewBit(a[n], b[n]);
      assert i < |g[n]|;
      assert (n, d, k, i) in Missing(g, a) && (n, d, k, i) !in Missing(g, b);
      forall x | x in Missing(g, b) ensures x in Missing(g, a) {
        assert a[x.0].SubsetOf(b[x.0]);
      }
    }
  }

  lemma NewBit(a: Mask, b: Mask) returns (d: Direction, k: Freshness, i: nat)
    requires a.SubsetOf(b) && a != b
    ensures i in b.Bits(d, k) && i !in a.Bits(d, k)
  {
    if a.pullNew != b.pullNew {
      d, k := In, New;
    } else if a.pullOld != b.pullOld {
      d, k := In, Old;
    } else if a.pushNew != b.pushNew {
      d, k := Out, New;
    } else {
      d, k := Out, Old;
    }
    i :| i in b.Bits(d, k) && i !in a.Bits(d, k);
  }

  // ----- The negotiation loop -----

  /** What the negotiation needs of its start state to run at all. */
  ghost predicate Startable(g: Graph, s: State) {
    Shaped(g, s) && Distinct(s.list) && NegBounded(g, s.neg)
  }

  /** Takes node `n` from the list and evaluates it. */
  function Step(g: Graph, s: State, n: nat): (r: Outcome)
    requires RefsExist(g) && Shaped(g, s) && n < |g|
    ensures Shaped(g, r.st)
  {
    RemoveIn(s.list, n);
    Evaluate(g, s.(list := Remove(s.list, n)), n)
  }

  lemma StepStartable(g: Graph, s: State, n: nat)
    requires WellFormed(g) && Startable(g, s) && n in s.list
    ensures Startable(g, Step(g, s, n).st)
    ensures var t := Step(g, s, n).st;
      Missing(g, t.neg) < Missing(g, s.neg) || (t.neg == s.neg && |t.list| < |s.list|)
  {
    var s0 := s.(list := Remove(s.list, n));
    RemoveElems(s.list, n);
    RemoveLength(s.list, n);
    var m := s.neg[n].Diff(s.prop[n]);
    PropagateAllShape(g, s0, n, m);
    PropagateAllBounded(g, s0, n, m);
    PropagateAllGrown(g, s0, n, m);
    var t := PropagateAll(g, s0, n, m).st;
    GrowthFillsMissing(g, s.neg, t.neg);
  }

  lemma {:induction false} RemoveLength(l: seq<nat>, n: nat)
    requires n in l
    ensures |Remove(l, n)| == |l| - 1
  {
    if l[0] != n {
      RemoveLength(l[1..], n);
    }
  }

  lemma PropagateAllGrown(g: Graph, s: State, n: nat, m: Mask)
    requires RefsExist(g) && n < |g| && |s.neg| == |g| && Distinct(s.list)
    ensures Grown(s, PropagateAll(g, s, n, m).st)
  {
    PropagateGrows(g, s, n, m.pullNew, In, New, 0);
    var r1 := Propagate(g, s, n, m.pullNew, In, New, 0);
    PropagateGrows(g, r1.st, n, m.pullOld, In, Old, 0);
    var r2 := Propagate(g, r1.st, n, m.pullOld, In, Old, 0);
    GrownTrans(s, r1.st, r2.st);
    PropagateGrows(g, r2.st, n, m.pushNew, Out, New, 0);
    var r3 := Propagate(g, r2.st, n, m.pushNew, Out, New, 0);
    GrownTrans(s, r2.st, r3.st);
    PropagateGrows(g, r3.st, n, m.pushOld, Out, Old, 0);
    var r4 := Propagate(g, r3.st, n, m.pushOld, Out, Old, 0);
    GrownTrans(s, r3.st, r4.st);
  }

  /** am_dfg_schedule_converge_deps. */
  function Converge(g: Graph, s: State): (r: Outcome)
    requires WellFormed(g) && Startable(g, s)
    ensures Shaped(g, r.st)
    decreases Missing(g, s.neg), |s.list|
  {
    if s.list == [] then
      Outcome(true, s)
    else
      assert s.list[0] in s.list;
      var r := Step(g, s, s.list[0]);
      StepStartable(g, s, s.list[0]);
      if !r.ok then r else Converge(g, r.st)
  }

  lemma {:induction false} ConvergeStaysStartable(g: Graph, s: State)
    requires WellFormed(g) && Startable(g, s)
    ensures Startable(g, Converge(g, s).st)
    decreases Missing(g, s.neg), |s.list|
  {
    if s.list != [] {
      assert s.list[0] in s.list;
      StepStartable(g, s, s.list[0]);
      var r := Step(g, s, s.list[0]);
      if r.ok { ConvergeStaysStartable(g, r.st); }
    }
  }

  // ----- What each evaluation keeps -----

  /** Nothing outside `c` was touched, and masks in `c` only grew. */
  ghost predicate Confined(c: set<nat>, s: State, t: State) {
    && |s.neg| == |t.neg| && |s.prop| == |t.prop| && |s.deps| == |t.deps| && t.gen == s.gen && t.done == s.done
    && (forall x :: 0 <= x < |s.neg| ==> s.neg[x].SubsetOf(t.neg[x]))
    && (forall x :: 0 <= x < |s.neg| && x !in c ==> t.neg[x] == s.neg[x])
    && (forall x :: 0 <= x < |s.prop| && x !in c ==> t.prop[x] == s.prop[x])
    && (forall x :: 0 <= x < |s.deps| && x !in c ==> t.deps[x] == s.deps[x])
  }

  lemma ConfinedTrans(c: set<nat>, s: State, t: State, u: State)
    requires Confined(c, s, t) && Confined(c, t, u)
    ensures Confined(c, s, u)
  {
    forall x | 0 <= x < |s.neg| ensures s.neg[x].SubsetOf(u.neg[x]) {
      assert s.neg[x].SubsetOf(t.neg[x]) && t.neg[x].SubsetOf(u.neg[x]);
    }
  }

  lemma SpreadStaysInScope(g: Graph, c: set<nat>, s: State, t: State, n: nat, m: Mask)
    requires Scope(g, c) && NoSelfLoop(g, c) && n in c && Spread(g, s, t, n, m)
    ensures t.neg[n] == s.neg[n]
    ensures forall x :: 0 <= x < |g| && t.neg[x] != s.neg[x] ==> x in c
  {
    forall x | 0 <= x < |g| && t.neg[x] != s.neg[x] ensures x in c && x != n {
      var i, q :| i in AllBits(m) && Connected(g, PortRef(n, i), q) && q.node == x;
    }
  }

  lemma HonoursAllMonotone(g: Graph, a: seq<Mask>, b: seq<Mask>, n: nat, m: Mask)
    requires |a| == |g| == |b| && HonoursAll(g, a, n, m)
    requires forall x :: 0 <= x < |g| ==> a[x].SubsetOf(b[x])
    ensures HonoursAll(g, b, n, m)
  {
    forall d: Direction, k: Freshness, i: nat | i in m.Bits(d, k) ensures Honoured(g, b, n, i, k) {
      HonouredMonotone(g, a, b, n, i, k);
    }
  }

  lemma HonoursUnion(g: Graph, neg: seq<Mask>, n: nat, a: Mask, b: Mask)
    requires |neg| == |g| && n < |g| && b.SubsetOf(a)
    requires HonoursAll(g, neg, n, b) && HonoursAll(g, neg, n, a.Diff(b))
    requires Typed(b, g[n]) && Typed(a.Diff(b), g[n])
    ensures HonoursAll(g, neg, n, a) && Typed(a, g[n])
  {
    DiffMask(a, b);
    forall d: Direction, k: Freshness, i: nat | i in a.Bits(d, k)
      ensures Honoured(g, neg, n, i, k) && Directed(g[n], i, d)
    {
    }
  }

  lemma BoundedSubset(a: Mask, b: Mask, n: nat)
    requires a.SubsetOf(b) && Bounded(b, n)
    ensures Bounded(a, n)
  {
    BoundedIsBelowFull(a, n);
    BoundedIsBelowFull(b, n);
  }

  lemma StepNegotiates(g: Graph, c: set<nat>, s: State, n: nat)
    requires WellFormed(g) && Scope(g, c) && NoSelfLoop(g, c) && Negotiating(g, c, s) && n in s.list
    ensures var r := Step(g, s, n);
      Confined(c, s, r.st) && (r.ok <==> Typed(s.neg[n], g[n])) && (r.ok ==> Negotiating(g, c, r.st))
    ensures var r := Step(g, s, n);
      forall x :: 0 <= x < |g| && r.st.neg[x] != s.neg[x] ==> Neighbour(g, n, AllBits(s.neg[n]), x)
  {
    var s0 := s.(list := Remove(s.list, n));
    RemoveElems(s.list, n);
    var m := s.neg[n].Diff(s.prop[n]);
    DiffMask(s.neg[n], s.prop[n]);
    BoundedSubset(m, s.neg[n], |g[n]|);
    PropagateAllSpreads(g, s0, n, m);
    PropagateAllShape(g, s0, n, m);
    PropagateAllBounded(g, s0, n, m);
    var t := PropagateAll(g, s0, n, m);
    SpreadStaysInScope(g, c, s0, t.st, n, m);
    DiffTyped(g, n, s.neg[n], s.prop[n]);
    forall x | 0 <= x < |g| && t.st.neg[x] != s.neg[x] ensures Neighbour(g, n, AllBits(s.neg[n]), x) {
      var i, q :| i in AllBits(m) && Connected(g, PortRef(n, i), q) && q.node == x;
    }
    if t.ok {
      SettleNegotiates(g, c, s, t.st, n);
    }
  }

  lemma DiffTyped(g: Graph, n: nat, a: Mask, b: Mask)
    requires n < |g| && b.SubsetOf(a) && Typed(b, g[n])
    ensures Typed(a, g[n]) <==> Typed(a.Diff(b), g[n])
  {
    DiffMask(a, b);
    if Typed(a, g[n]) {
      forall d: Direction, k: Freshness, i: nat | i in a.Diff(b).Bits(d, k) ensures Directed(g[n], i, d) {
        assert i in a.Bits(d, k);
      }
    }
    if Typed(a.Diff(b), g[n]) {
      forall d: Direction, k: Freshness, i: nat | i in a.Bits(d, k) ensures Directed(g[n], i, d) {
        assert i in b.Bits(d, k) || i in a.Diff(b).Bits(d, k);
      }
    }
  }

  lemma SettleNegotiates(g: Graph, c: set<nat>, s: State, t: State, n: nat)
    requires WellFormed(g) && Negotiating(g, c, s) && n in s.list && n < |g| && n in c
    requires Shaped(g, t) && NegBounded(g, t.neg) && t.neg[n] == s.neg[n]
    requires Distinct(Remove(s.list, n)) && Grown(s.(list := Remove(s.list, n)), t)
    requires forall x :: x in Remove(s.list, n) <==> x in s.list && x != n
    requires forall x :: 0 <= x < |g| && t.neg[x] != s.neg[x] ==> x in c
    requires HonoursAll(g, t.neg, n, s.neg[n].Diff(s.prop[n])) && Typed(s.neg[n].Diff(s.prop[n]), g[n])
    ensures Negotiating(g, c, Settle(g, t, n))
  {
    var u := Settle(g, t, n);
    DiffMask(s.neg[n], s.prop[n]);
    assert u.prop[n] == s.neg[n];
    forall x | x in c && x < |g| ensures HonoursAll(g, u.neg, x, u.prop[x]) && Typed(u.prop[x], g[x]) {
      HonoursAllMonotone(g, s.neg, t.neg, x, s.prop[x]);
      if x == n {
        HonoursUnion(g, t.neg, n, s.neg[n], s.prop[n]);
      }
    }
    forall x | x in c && x < |g| ensures u.prop[x].SubsetOf(u.neg[x]) {
      assert s.prop[x].SubsetOf(s.neg[x]) && s.neg[x].SubsetOf(t.neg[x]);
    }
  }

  lemma StepBelow(g: Graph, c: set<nat>, s: State, n: nat, top: seq<Mask>)
    requires WellFormed(g) && Negotiating(g, c, s) && n in s.list
    requires Closed(g, c, top) && Below(c, s.neg, top)
    ensures Below(c, Step(g, s, n).st.neg, top)
  {
    var s0 := s.(list := Remove(s.list, n));
    var m := s.neg[n].Diff(s.prop[n]);
    DiffMask(s.neg[n], s.prop[n]);
    forall d: Direction, k: Freshness, i: nat | i in m.Bits(d, k) ensures Honoured(g, top, n, i, k) {
      assert i in top[n].Bits(d, k);
    }
    RemoveIn(s.list, n);
    PropagateAllShape(g, s0, n, m);
    PropagateAllBelow(g, c, s0, n, m, top);
  }

  // ----- The result of the negotiation -----

  /** `neg` is the least closed assignment that contains `start` on `c`. */
  ghost predicate LeastClosed(g: Graph, c: set<nat>, start: seq<Mask>, neg: seq<Mask>) {
    && Closed(g, c, neg) && Below(c, start, neg)
    && forall top :: Closed(g, c, top) && Below(c, start, top) ==> Below(c, neg, top)
  }

  lemma {:induction false} ConvergeNegotiates(g: Graph, c: set<nat>, s: State)
    requires WellFormed(g) && Scope(g, c) && NoSelfLoop(g, c) && Negotiating(g, c, s)
    ensures var r := Converge(g, s);
      Confined(c, s, r.st) && (r.ok ==> Negotiating(g, c, r.st) && r.st.list == [])
    decreases Missing(g, s.neg), |s.list|
  {
    if s.list != [] {
      var n := s.list[0];
      assert n in s.list;
      StepStartable(g, s, n);
      StepNegotiates(g, c, s, n);
      var r := Step(g, s, n);
      if r.ok {
        ConvergeNegotiates(g, c, r.st);
        ConfinedTrans(c, s, r.st, Converge(g, r.st).st);
      }
    }
  }

  /** Every closed assignment above the start bounds the run; a run that fails has
      no closed assignment above its start. */
  lemma {:induction false} ConvergeBelow(g: Graph, c: set<nat>, s: State, top: seq<Mask>)
    requires WellFormed(g) && Scope(g, c) && NoSelfLoop(g, c) && Negotiating(g, c, s)
    requires Closed(g, c, top) && Below(c, s.neg, top)
    ensures Converge(g, s).ok && Below(c, Converge(g, s).st.neg, top)
    decreases Missing(g, s.neg), |s.list|
  {
    if s.list != [] {
      var n := s.list[0];
      assert n in s.list;
      StepStartable(g, s, n);
      StepNegotiates(g, c, s, n);
      StepBelow(g, c, s, n, top);
      assert Typed(s.neg[n], g[n]) by {
        assert s.neg[n].SubsetOf(top[n]) && Typed(top[n], g[n]);
        SubsetTyped(s.neg[n], top[n], g[n]);
      }
      ConvergeBelow(g, c, Step(g, s, n).st, top);
    }
  }

  lemma SubsetTyped(a: Mask, b: Mask, ports: seq<Port>)
    requires a.SubsetOf(b) && Typed(b, ports)
    ensures Typed(a, ports)
  {
    forall d: Direction, k: Freshness, i: nat | i in a.Bits(d, k) ensures Directed(ports, i, d) {
      assert i in b.Bits(d, k);
    }
  }

  /** Negotiation on a graph without self-loops: it succeeds exactly when some
      well-typed assignment satisfies all rules, and then ends at the least one. */
  lemma ConvergeReachesLeastClosed(g: Graph, c: set<nat>, s: State)
    requires WellFormed(g) && Scope(g, c) && NoSelfLoop(g, c) && Negotiating(g, c, s)
    ensures var r := Converge(g, s);
      && (r.ok <==> exists top :: Closed(g, c, top) && Below(c, s.neg, top))
      && (r.ok ==> LeastClosed(g, c, s.neg, r.st.neg))
  {
    var r := Converge(g, s);
    ConvergeNegotiates(g, c, s);
    if r.ok {
      assert Closed(g, c, r.st.neg);
      assert Below(c, s.neg, r.st.neg);
    }
    forall top | Closed(g, c, top) && Below(c, s.neg, top) ensures r.ok && Below(c, r.st.neg, top) {
      ConvergeBelow(g, c, s, top);
    }
  }
}
