/** How the masks of a node type are built from its definition. */
module NodeTypes {
  import opened Digraph
  import opened DataflowGraph

  /** An explicit dependency: when data of kind `trigger` is announced at, or
      requested from, port `port`, the ports in `targets` react. */
  datatype PortDep = PortDep(port: nat, trigger: Freshness, dir: Direction, kind: Freshness, targets: set<nat>)

  /** The index set of the ports with direction `d`. */
  function PortsOf(dirs: seq<Direction>, d: Direction): set<nat> {
    set i | 0 <= i < |dirs| && dirs[i] == d
  }

  function With(d: Direction, k: Freshness, bits: set<nat>): Mask {
    match (d, k)
    case (In, New) => EMPTY_MASK.(pullNew := bits)
    case (In, Old) => EMPTY_MASK.(pullOld := bits)
    case (Out, New) => EMPTY_MASK.(pushNew := bits)
    case (Out, Old) => EMPTY_MASK.(pushOld := bits)
  }

  /** am_dfg_static_port_def_init_masks: an output pulled for new data answers that
      it has old data. */
  function InitialType(d: Direction, i: nat): PortType {
    PortType(d, if d == Out then With(Out, Old, {i}) else EMPTY_MASK, EMPTY_MASK)
  }

  /** The effect of one explicit dependency on port `i`. */
  function AddDep(t: PortType, i: nat, dep: PortDep): PortType {
    if dep.port != i then t
    else match dep.trigger
      case New => t.(newMask := t.newMask.Apply(With(dep.dir, dep.kind, dep.targets)))
      case Old => t.(oldMask := t.oldMask.Apply(With(dep.dir, dep.kind, dep.targets)))
  }

  function AddDeps(t: PortType, i: nat, deps: seq<PortDep>): PortType
    decreases |deps|
  {
    if deps == [] then t else AddDeps(AddDep(t, i, deps[0]), i, deps[1..])
  }

  /** am_dfg_node_type_set_portdeps_pure_functional for one port. */
  function AddPure(t: PortType, ins: set<nat>, outs: set<nat>): PortType {
    if t.dir == In then
      t.(newMask := t.newMask.Apply(Mask({}, ins, outs, {})), oldMask := t.oldMask.Apply(Mask(ins, {}, {}, outs)))
    else
      t.(newMask := t.newMask.Apply(Mask(ins, {}, {}, outs)), oldMask := t.oldMask.Apply(Mask({}, ins, {}, outs)))
  }

  /** The port types of a node type: initial masks, explicit dependencies, and the
      default dependencies of pure functions if `pure` is set. */
  function BuildPorts(dirs: seq<Direction>, deps: seq<PortDep>, pure: bool): (r: seq<PortType>)
    ensures |r| == |dirs|
  {
    seq(|dirs|, i requires 0 <= i < |dirs| =>
      var t := AddDeps(InitialType(dirs[i], i), i, deps);
      if pure then AddPure(t, PortsOf(dirs, In), PortsOf(dirs, Out)) else t)
  }

  // ----- What the masks say, bit by bit -----

  /** An explicit dependency makes port `p`, at data of kind `f`, name port `i`. */
  ghost predicate NamedByDep(deps: seq<PortDep>, p: nat, f: Freshness, d: Direction, k: Freshness, i: nat) {
    exists dep :: dep in deps && dep.port == p && dep.trigger == f && dep.dir == d && dep.kind == k && i in dep.targets
  }

  /** The default dependencies of pure functions. An input told of new data pulls all inputs
      regardless of age and pushes new data; told of old data, it pulls new data and pushes old
      data. An output asked for new data does the latter; asked for old data, it pulls all inputs
      regardless of age and pushes old data. */
  predicate NamedByDefault(dirs: seq<Direction>, p: nat, f: Freshness, d: Direction, k: Freshness, i: nat)
    requires p < |dirs|
  {
    i < |dirs| && dirs[i] == d &&
    match (dirs[p], f, d)
    case (In, New, In) => k == Old
    case (In, New, Out) => k == New
    case (In, Old, In) => k == New
    case (In, Old, Out) => k == Old
    case (Out, New, In) => k == New
    case (Out, New, Out) => k == Old
    case (Out, Old, In) => k == Old
    case (Out, Old, Out) => k == Old
  }

  lemma NamedByOne(deps: seq<PortDep>, p: nat, f: Freshness, d: Direction, k: Freshness, i: nat)
    requires deps != []
    ensures NamedByDep(deps, p, f, d, k, i) <==>
      NamedByDep(deps[..1], p, f, d, k, i) || NamedByDep(deps[1..], p, f, d, k, i)
  {
    assert deps == deps[..1] + deps[1..];
    assert deps[0] in deps[..1];
  }

  lemma AddDepBits(t: PortType, p: nat, dep: PortDep, f: Freshness, d: Direction, k: Freshness, i: nat)
    ensures i in AddDep(t, p, dep).MaskFor(f).Bits(d, k) <==>
      i in t.MaskFor(f).Bits(d, k) || NamedByDep([dep], p, f, d, k, i)
  {
    assert dep in [dep];
  }

  lemma {:induction false} AddDepsBits(t: PortType, p: nat, deps: seq<PortDep>, f: Freshness, d: Direction,
                                       k: Freshness, i: nat)
    ensures i in AddDeps(t, p, deps).MaskFor(f).Bits(d, k) <==>
      i in t.MaskFor(f).Bits(d, k) || NamedByDep(deps, p, f, d, k, i)
    decreases |deps|
  {
    if deps != [] {
      AddDepsBits(AddDep(t, p, deps[0]), p, deps[1..], f, d, k, i);
      AddDepBits(t, p, deps[0], f, d, k, i);
      NamedByOne(deps, p, f, d, k, i);
      assert deps[..1] == [deps[0]];
    }
  }

  /** The masks of a port name exactly the ports that an explicit dependency names, those of the
      default dependencies for pure functions, and, for an output asked for new data, itself. */
  lemma BuiltMasks(dirs: seq<Direction>, deps: seq<PortDep>, pure: bool, p: nat, f: Freshness, d: Direction,
                   k: Freshness, i: nat)
    requires p < |dirs|
    ensures BuildPorts(dirs, deps, pure)[p].dir == dirs[p]
    ensures i in BuildPorts(dirs, deps, pure)[p].MaskFor(f).Bits(d, k) <==>
      NamedByDep(deps, p, f, d, k, i) || (pure && NamedByDefault(dirs, p, f, d, k, i)) ||
      (dirs[p] == Out && f == New && d == Out && k == Old && i == p)
  {
    var t := InitialType(dirs[p], p);
    AddDepsBits(t, p, deps, f, d, k, i);
    AddDepsExtends(t, p, deps);
    PureBits(dirs, AddDeps(t, p, deps), p, f, d, k, i);
  }

  lemma PureBits(dirs: seq<Direction>, t: PortType, p: nat, f: Freshness, d: Direction, k: Freshness, i: nat)
    requires p < |dirs| && t.dir == dirs[p]
    ensures i in AddPure(t, PortsOf(dirs, In), PortsOf(dirs, Out)).MaskFor(f).Bits(d, k) <==>
      i in t.MaskFor(f).Bits(d, k) || NamedByDefault(dirs, p, f, d, k, i)
  {
  }

  // ----- Conditions on port types that the scheduling results rest on -----

  /** The masks of every port type only name ports of the right direction. */
  ghost predicate MasksTyped(g: Graph) {
    forall r :: HasPort(g, r) ==> Typed(At(g, r).ptype.newMask, g[r.node]) && Typed(At(g, r).ptype.oldMask, g[r.node])
  }

  /** An output asked for data regardless of its age answers with old data. */
  ghost predicate OldDataIsPushed(g: Graph) {
    forall r :: HasPort(g, r) && At(g, r).ptype.dir == Out ==> r.idx in At(g, r).ptype.oldMask.pushOld
  }

  /** An output asked for new data answers that it has old data, as every output does
      that is built from a definition. */
  ghost predicate RequestsAreAnswered(g: Graph) {
    forall r :: HasPort(g, r) && At(g, r).ptype.dir == Out ==> r.idx in At(g, r).ptype.newMask.pushOld
  }

  /** An input told of data, new or old, pulls it regardless of its age. */
  ghost predicate InputsPull(g: Graph) {
    forall q :: HasPort(g, q) && At(g, q).ptype.dir == In ==>
      q.idx in At(g, q).ptype.newMask.pullOld || q.idx in At(g, q).ptype.oldMask.pullOld
  }

  ghost predicate NewDataIsPulled(g: Graph) {
    RequestsAreAnswered(g) && InputsPull(g)
  }

  /** Node `n` of the graph has the ports of a pure-functional node type. */
  ghost predicate PureNode(ports: seq<Port>) {
    exists dirs, deps :: DepsTyped(dirs, deps) && Instance(ports, BuildPorts(dirs, deps, true))
  }

  ghost predicate Instance(ports: seq<Port>, types: seq<PortType>) {
    |ports| == |types| && forall i :: 0 <= i < |ports| ==> ports[i].ptype == types[i]
  }

  /** Explicit dependencies pull inputs and push outputs. */
  ghost predicate DepsTyped(dirs: seq<Direction>, deps: seq<PortDep>) {
    forall dep :: dep in deps ==> dep.targets <= PortsOf(dirs, dep.dir)
  }

  ghost predicate PureGraph(g: Graph) {
    forall n :: 0 <= n < |g| ==> PureNode(g[n])
  }

  /** The masks of `t` contain those of `s` and the direction is the same. */
  ghost predicate Extends(s: PortType, t: PortType) {
    s.dir == t.dir && s.newMask.SubsetOf(t.newMask) && s.oldMask.SubsetOf(t.oldMask)
  }

  lemma {:induction false} AddDepsExtends(t: PortType, i: nat, deps: seq<PortDep>)
    ensures Extends(t, AddDeps(t, i, deps))
    decreases |deps|
  {
    if deps != [] {
      AddDepsExtends(AddDep(t, i, deps[0]), i, deps[1..]);
    }
  }

  /** Pull bits within the inputs, push bits within the outputs. */
  ghost predicate Fits(m: Mask, ins: set<nat>, outs: set<nat>) {
    m.pullNew <= ins && m.pullOld <= ins && m.pushNew <= outs && m.pushOld <= outs
  }

  lemma {:induction false} AddDepsFits(t: PortType, i: nat, deps: seq<PortDep>, dirs: seq<Direction>)
    requires DepsTyped(dirs, deps)
    requires Fits(t.newMask, PortsOf(dirs, In), PortsOf(dirs, Out))
    requires Fits(t.oldMask, PortsOf(dirs, In), PortsOf(dirs, Out))
    ensures var u := AddDeps(t, i, deps);
      Fits(u.newMask, PortsOf(dirs, In), PortsOf(dirs, Out)) && Fits(u.oldMask, PortsOf(dirs, In), PortsOf(dirs, Out))
    decreases |deps|
  {
    if deps != [] {
      assert deps[0] in deps;
      assert forall dep :: dep in deps[1..] ==> dep in deps;
      AddDepsFits(AddDep(t, i, deps[0]), i, deps[1..], dirs);
    }
  }

  lemma FitsTyped(m: Mask, dirs: seq<Direction>, ports: seq<Port>)
    requires Fits(m, PortsOf(dirs, In), PortsOf(dirs, Out)) && |ports| == |dirs|
    requires forall i :: 0 <= i < |ports| ==> ports[i].ptype.dir == dirs[i]
    ensures Typed(m, ports)
  {
    forall d: Direction, k: Freshness, i: nat | i in m.Bits(d, k) ensures Directed(ports, i, d) {
      assert i in PortsOf(dirs, d);
    }
  }

  /** What the definition of a pure-functional node type guarantees. */
  lemma PureNodeGuarantees(ports: seq<Port>, i: nat)
    requires PureNode(ports) && i < |ports|
    ensures Typed(ports[i].ptype.newMask, ports) && Typed(ports[i].ptype.oldMask, ports)
    ensures ports[i].ptype.dir == Out ==> i in ports[i].ptype.oldMask.pushOld && i in ports[i].ptype.newMask.pushOld
    ensures ports[i].ptype.dir == In ==> i in ports[i].ptype.newMask.pullOld
  {
    var dirs, deps :| DepsTyped(dirs, deps) && Instance(ports, BuildPorts(dirs, deps, true));
    forall j | 0 <= j < |ports| ensures ports[j].ptype.dir == dirs[j] {
      AddDepsExtends(InitialType(dirs[j], j), j, deps);
    }
    var t := AddDeps(InitialType(dirs[i], i), i, deps);
    AddDepsExtends(InitialType(dirs[i], i), i, deps);
    AddDepsFits(InitialType(dirs[i], i), i, deps, dirs);
    assert ports[i].ptype == AddPure(t, PortsOf(dirs, In), PortsOf(dirs, Out));
    FitsTyped(ports[i].ptype.newMask, dirs, ports);
    FitsTyped(ports[i].ptype.oldMask, dirs, ports);
    assert i in PortsOf(dirs, dirs[i]);
  }

  /** Graphs of pure-functional nodes meet all conditions. */
  lemma PureGraphGuarantees(g: Graph)
    requires PureGraph(g)
    ensures MasksTyped(g) && OldDataIsPushed(g) && NewDataIsPulled(g)
  {
    forall r | HasPort(g, r)
      ensures Typed(At(g, r).ptype.newMask, g[r.node]) && Typed(At(g, r).ptype.oldMask, g[r.node])
      ensures At(g, r).ptype.dir == Out ==>
        r.idx in At(g, r).ptype.oldMask.pushOld && r.idx in At(g, r).ptype.newMask.pushOld
      ensures At(g, r).ptype.dir == In ==> r.idx in At(g, r).ptype.newMask.pullOld
    {
      PureNodeGuarantees(g[r.node], r.idx);
    }
  }
}
