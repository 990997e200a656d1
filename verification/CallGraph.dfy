/** Reconstruction of the call graph of one core from its stack frames: a stack machine
    over the frames sorted by start that finds parents and depths and cuts the time of
    every frame into exclusive periods. */
module CallGraph {
  import opened Wrappers
  import opened Digraph

  /** The interval of a stack frame. */
  datatype Frame = Frame(start: nat, end: nat)

  /** A stretch of time that belongs to a frame alone; `rank` counts within the frame. */
  datatype Period = Period(frame: nat, from: nat, to: nat, rank: nat)

  /** The state of the loop over frames; `prev` is the end of the previous period. */
  datatype State = State(stack: seq<nat>, prev: nat, parents: seq<Option<nat>>, depths: seq<nat>, log: seq<Period>)

  predicate Sorted(fs: seq<Frame>) {
    forall i: nat, j: nat :: i < j < |fs| ==> fs[i].start <= fs[j].start
  }

  /** The periods of one frame, in order. */
  function Of(log: seq<Period>, f: nat): seq<Period> {
    if log == [] then []
    else Of(log[..|log| - 1], f) + (if log[|log| - 1].frame == f then [log[|log| - 1]] else [])
  }

  /** The frames with a given parent, in order. */
  function Kids(parents: seq<Option<nat>>, f: nat): seq<nat> {
    if parents == [] then []
    else Kids(parents[..|parents| - 1], f) + (if parents[|parents| - 1] == Some(f) then [|parents| - 1] else [])
  }

  predicate StackOk(fs: seq<Frame>, s: State) {
    |s.parents| == |s.depths| <= |fs| && forall i: nat :: i < |s.stack| ==> s.stack[i] < |s.parents|
  }

  function Top(s: State): nat
    requires s.stack != []
  {
    s.stack[|s.stack| - 1]
  }

  /** A period of the top frame from the end of the previous period on. */
  function AddPeriod(s: State, to: nat): State
    requires s.stack != []
  {
    s.(log := s.log + [Period(Top(s), s.prev, to, |Of(s.log, Top(s))|)], prev := to)
  }

  /** The top frame ends. */
  function Leave(fs: seq<Frame>, s: State): State
    requires StackOk(fs, s) && s.stack != []
  {
    AddPeriod(s, fs[Top(s)].end).(stack := s.stack[..|s.stack| - 1])
  }

  /** All frames on top that ended before time `t` end. */
  function LeaveEnded(fs: seq<Frame>, s: State, t: nat): (r: State)
    requires StackOk(fs, s)
    ensures StackOk(fs, r) && r.parents == s.parents && r.depths == s.depths
    decreases |s.stack|
  {
    if s.stack != [] && fs[Top(s)].end < t then LeaveEnded(fs, Leave(fs, s), t) else s
  }

  /** The next frame starts: a period of its parent ends, and it is put on the stack. */
  function Push(fs: seq<Frame>, s: State): (r: State)
    requires StackOk(fs, s) && |s.parents| < |fs|
    ensures StackOk(fs, r) && |r.parents| == |s.parents| + 1
  {
    var k := |s.parents|;
    var t := fs[k].start;
    var log := if s.stack == [] then s.log else AddPeriod(s, t).log;
    var parent := if s.stack == [] then None else Some(Top(s));
    State(s.stack + [k], t, s.parents + [parent], s.depths + [|s.stack| + 1], log)
  }

  function Enter(fs: seq<Frame>, s: State): (r: State)
    requires StackOk(fs, s) && |s.parents| < |fs|
    ensures StackOk(fs, r) && |r.parents| == |s.parents| + 1
  {
    Push(fs, LeaveEnded(fs, s, fs[|s.parents|].start))
  }

  function Run(fs: seq<Frame>, n: nat): (s: State)
    requires n <= |fs|
    ensures StackOk(fs, s) && |s.parents| == n
  {
    if n == 0 then State([], 0, [], [], []) else Enter(fs, Run(fs, n - 1))
  }

  /** After the last frame all frames still on the stack end. */
  function LeaveAll(fs: seq<Frame>, s: State): (r: State)
    requires StackOk(fs, s)
    ensures StackOk(fs, r) && r.parents == s.parents && r.depths == s.depths && r.stack == []
    decreases |s.stack|
  {
    if s.stack == [] then s else LeaveAll(fs, Leave(fs, s))
  }

  /** The result for a core. */
  function Build(fs: seq<Frame>): (s: State)
    ensures |s.parents| == |s.depths| == |fs| && s.stack == []
  {
    LeaveAll(fs, Run(fs, |fs|))
  }

  // ----- What the stack holds -----

  /** Every frame on the stack is the parent of the one above it. */
  ghost predicate Chained(parents: seq<Option<nat>>, depths: seq<nat>, stack: seq<nat>)
    requires |parents| == |depths| && forall i: nat :: i < |stack| ==> stack[i] < |parents|
  {
    && (stack != [] ==> parents[stack[0]] == None)
    && (forall i: nat, j: nat :: i < j == i + 1 < |stack| ==> parents[stack[j]] == Some(stack[i]))
    && (forall i: nat :: i < |stack| ==> depths[stack[i]] == i + 1)
  }

  /** Frames are left only once they have ended. */
  ghost predicate LeftEnded(fs: seq<Frame>, n: nat, stack: seq<nat>, now: nat) {
    forall i: nat :: i < n <= |fs| && i !in stack ==> fs[i].end < now
  }

  ghost predicate Stacked(fs: seq<Frame>, s: State, now: nat) {
    && StackOk(fs, s) && Chained(s.parents, s.depths, s.stack) && Ascending(s.stack)
    && LeftEnded(fs, |s.parents|, s.stack, now) && ParentsFirst(s.parents, s.depths)
  }

  /** Parents come first, and the depth of a frame is one more than its parent's. */
  ghost predicate ParentsFirst(parents: seq<Option<nat>>, depths: seq<nat>) {
    && |parents| == |depths|
    && forall k: nat {:trigger parents[k]} :: k < |parents| ==>
      match parents[k]
      case None => depths[k] == 1
      case Some(p) => p < k && depths[k] == depths[p] + 1
  }

  lemma LeaveStacked(fs: seq<Frame>, s: State, now: nat)
    requires Stacked(fs, s, now) && s.stack != [] && fs[Top(s)].end < now
    ensures Stacked(fs, Leave(fs, s), now)
  {
    hide ParentsFirst;
    var r := Leave(fs, s);
    forall i: nat | i < |r.parents| && i !in r.stack ensures fs[i].end < now {
      if i in s.stack {
        assert s.stack == r.stack + [Top(s)];
      }
    }
  }

  lemma {:induction false} LeaveEndedStacked(fs: seq<Frame>, s: State, now: nat)
    requires Stacked(fs, s, now)
    ensures var r := LeaveEnded(fs, s, now);
      Stacked(fs, r, now) && (r.stack != [] ==> now <= fs[Top(r)].end) && r.stack <= s.stack
    decreases |s.stack|
  {
    if s.stack != [] && fs[Top(s)].end < now {
      LeaveStacked(fs, s, now);
      LeaveEndedStacked(fs, Leave(fs, s), now);
    }
  }

  lemma Later(fs: seq<Frame>, s: State, now: nat, later: nat)
    requires Stacked(fs, s, now) && now <= later
    ensures Stacked(fs, s, later)
  {
  }

  lemma PushStacked(fs: seq<Frame>, s: State)
    requires |s.parents| < |fs| && Stacked(fs, s, fs[|s.parents|].start)
    ensures Stacked(fs, Push(fs, s), fs[|s.parents|].start)
  {
    var r := Push(fs, s);
    var k := |s.parents|;
    forall i: nat | i < |r.parents| && i !in r.stack ensures fs[i].end < fs[k].start {
      assert r.stack[|s.stack|] == k;
      assert s.stack <= r.stack;
    }
  }

  /** What a frame's parent is chosen from: the frame on top when it starts. */
  lemma EnterTakesTop(fs: seq<Frame>, s: State)
    requires |s.parents| < |fs| && Stacked(fs, s, fs[|s.parents|].start)
    ensures var k := |s.parents|; var r := Enter(fs, s); r.stack != [] && var below := r.stack[..|r.stack| - 1];
      && Stacked(fs, r, fs[k].start) && r.stack == below + [k]
      && r.parents == s.parents + [if below == [] then None else Some(below[|below| - 1])]
      && r.depths == s.depths + [|below| + 1]
      && (below != [] ==> below[|below| - 1] < |fs| && fs[k].start <= fs[below[|below| - 1]].end)
  {
    assert StackOk(fs, s);
    hide Stacked;
    var t := fs[|s.parents|].start;
    LeaveEndedStacked(fs, s, t);
    PushStacked(fs, LeaveEnded(fs, s, t));
  }

  lemma StartStacked(fs: seq<Frame>)
    ensures Stacked(fs, Run(fs, 0), 0)
  {
  }

  /** The state right after frame `n - 1` has been pushed. */
  lemma {:induction false} RunStacked(fs: seq<Frame>, n: nat)
    requires Sorted(fs) && n <= |fs|
    ensures Stacked(fs, Run(fs, n), if n == 0 then 0 else fs[n - 1].start)
  {
    hide Stacked; hide Enter;
    if n == 0 {
      StartStacked(fs);
    } else {
      RunStacked(fs, n - 1);
      var s := Run(fs, n - 1);
      Later(fs, s, if n == 1 then 0 else fs[n - 2].start, fs[n - 1].start);
      EnterTakesTop(fs, s);
    }
  }

  lemma {:induction false} RunGrows(fs: seq<Frame>, k: nat, n: nat)
    requires k <= n <= |fs|
    ensures Run(fs, k).parents <= Run(fs, n).parents && Run(fs, k).depths <= Run(fs, n).depths
  {
    if k < n {
      RunGrows(fs, k, n - 1);
    }
  }

  // ----- Parents and depths -----

  /** Frame `k`, which starts later or at the same time, lies within frame `i`. */
  predicate Encloses(fs: seq<Frame>, i: nat, k: nat)
    requires i < |fs| && k < |fs|
  {
    i < k && fs[k].end <= fs[i].end
  }

  /** Of two frames, the first has ended before the second starts, or encloses it. */
  predicate Laminar(fs: seq<Frame>) {
    forall i: nat, k: nat :: i < k < |fs| ==> fs[i].end < fs[k].start || Encloses(fs, i, k)
  }

  predicate Intervals(fs: seq<Frame>) {
    forall i: nat :: i < |fs| ==> fs[i].start <= fs[i].end
  }

  ghost predicate ParentsEnclose(fs: seq<Frame>, parents: seq<Option<nat>>)
  {
    |parents| <= |fs| && forall k: nat :: k < |parents| && parents[k].Some? ==>
      parents[k].value < |fs| && Encloses(fs, parents[k].value, k)
  }

  /** The frames below frame `k` on the stack right after it has been pushed. */
  function Below(fs: seq<Frame>, k: nat): seq<nat>
    requires k < |fs|
  {
    var s := Run(fs, k + 1);
    if s.stack == [] then [] else s.stack[..|s.stack| - 1]
  }

  lemma ParentIsTop(fs: seq<Frame>, k: nat)
    requires Sorted(fs) && k < |fs|
    ensures var s := Run(fs, k + 1); var below := Below(fs, k);
      && Stacked(fs, s, fs[k].start) && s.stack == below + [k]
      && Build(fs).parents[k] == (if below == [] then None else Some(below[|below| - 1]))
      && Build(fs).depths[k] == |below| + 1
      && (below != [] ==> below[|below| - 1] < |fs| && fs[k].start <= fs[below[|below| - 1]].end)
  {
    hide Stacked; hide Enter;
    RunStacked(fs, k);
    Later(fs, Run(fs, k), if k == 0 then 0 else fs[k - 1].start, fs[k].start);
    EnterTakesTop(fs, Run(fs, k));
    RunGrows(fs, k + 1, |fs|);
    var s := Run(fs, k + 1);
    assert s.parents[k] == Build(fs).parents[k] && s.depths[k] == Build(fs).depths[k];
  }

  /** In a stack whose parents enclose their children the lower frames enclose the
      upper ones. */
  lemma {:induction false} LowerEnclose(fs: seq<Frame>, s: State, now: nat, i: nat, j: nat)
    requires Stacked(fs, s, now) && i < j < |s.stack|
    requires ParentsEnclose(fs, s.parents)
    ensures Encloses(fs, s.stack[i], s.stack[j])
    decreases j
  {
    assert s.parents[s.stack[j]] == Some(s.stack[j - 1]);
    if i < j - 1 {
      LowerEnclose(fs, s, now, i, j - 1);
    }
  }

  lemma ParentsEncloseSoFar(fs: seq<Frame>, n: nat)
    requires n <= |fs| && ParentsEnclose(fs, Build(fs).parents)
    ensures ParentsEnclose(fs, Run(fs, n).parents)
  {
    RunGrows(fs, n, |fs|);
    forall k: nat | k < n ensures Run(fs, n).parents[k] == Build(fs).parents[k] {
    }
  }

  lemma EndedBefore(fs: seq<Frame>, i: nat, k: nat)
    requires Sorted(fs) && i < k < |fs| && i !in Below(fs, k)
    ensures fs[i].end < fs[k].start
  {
    hide Build; hide Run; hide Chained; hide ParentsFirst; hide Sorted; hide Below;
    ParentIsTop(fs, k);
    assert i !in Below(fs, k) + [k];
  }

  lemma BelowEncloses(fs: seq<Frame>, a: nat, k: nat)
    requires Sorted(fs) && ParentsEnclose(fs, Build(fs).parents) && k < |fs| && a < |Below(fs, k)|
    ensures Below(fs, k)[a] < |fs| && Encloses(fs, Below(fs, k)[a], k)
  {
    hide Build; hide Run; hide Chained; hide ParentsFirst; hide Sorted; hide Below; hide ParentsEnclose;
    ParentIsTop(fs, k);
    ParentsEncloseSoFar(fs, k + 1);
    LowerEnclose(fs, Run(fs, k + 1), fs[k].start, a, |Below(fs, k)|);
  }

  /** If parents enclose their children, an earlier frame has ended before the start of
      a later one, or is below it on the stack and encloses it. */
  lemma EndedOrEnclosing(fs: seq<Frame>, i: nat, k: nat)
    requires Sorted(fs) && ParentsEnclose(fs, Build(fs).parents) && i < k < |fs|
    ensures i !in Below(fs, k) ==> fs[i].end < fs[k].start
    ensures i in Below(fs, k) ==> Encloses(fs, i, k)
  {
    hide Build; hide Run; hide Sorted; hide Below; hide ParentsEnclose;
    if i in Below(fs, k) {
      var a: nat :| a < |Below(fs, k)| && Below(fs, k)[a] == i;
      BelowEncloses(fs, a, k);
    } else {
      EndedBefore(fs, i, k);
    }
  }

  lemma LaminarParentsEnclose(fs: seq<Frame>)
    requires Sorted(fs) && Laminar(fs)
    ensures ParentsEnclose(fs, Build(fs).parents)
  {
    hide Build; hide Run;
    var parents := Build(fs).parents;
    forall k: nat | k < |fs| && parents[k].Some? ensures parents[k].value < |fs| && Encloses(fs, parents[k].value, k) {
      ParentIsTop(fs, k);
      ParentBelow(fs, k);
    }
  }

  lemma ParentBelow(fs: seq<Frame>, k: nat)
    requires Sorted(fs) && k < |fs| && Build(fs).parents[k].Some?
    ensures Build(fs).parents[k].value < k
  {
    hide Build; hide Run; hide Below;
    ParentIsTop(fs, k);
    var s := Run(fs, k + 1);
    assert s.stack[|s.stack| - 2] < s.stack[|s.stack| - 1];
  }

  /** Every recorded parent encloses its child exactly for laminar frames: a sibling
      that starts just when another frame ends is enough to break it. */
  lemma ParentsEncloseIffLaminar(fs: seq<Frame>)
    requires Sorted(fs)
    ensures ParentsEnclose(fs, Build(fs).parents) <==> Laminar(fs)
  {
    hide Build; hide Run;
    if ParentsEnclose(fs, Build(fs).parents) {
      forall i: nat, k: nat | i < k < |fs| ensures fs[i].end < fs[k].start || Encloses(fs, i, k) {
        EndedOrEnclosing(fs, i, k);
      }
    }
    if Laminar(fs) {
      LaminarParentsEnclose(fs);
    }
  }

  /** The frames that enclose a frame. */
  ghost function Enclosing(fs: seq<Frame>, k: nat): set<nat>
    requires k < |fs|
  {
    set i: nat | i < k && Encloses(fs, i, k)
  }

  /** Frame `p` encloses `k`, and every other frame that does encloses `p` too. */
  ghost predicate Innermost(fs: seq<Frame>, p: nat, k: nat)
    requires k < |fs|
  {
    p in Enclosing(fs, k) && forall i: nat :: i in Enclosing(fs, k) && i != p ==> Encloses(fs, i, p)
  }

  /** For laminar frames the frames below a new frame on the stack are exactly the
      frames that enclose it. */
  lemma BelowIsEnclosing(fs: seq<Frame>, k: nat)
    requires Sorted(fs) && Intervals(fs) && Laminar(fs) && k < |fs|
    ensures Ascending(Below(fs, k)) && Elems(Below(fs, k)) == Enclosing(fs, k)
  {
    hide Build; hide Run;
    LaminarParentsEnclose(fs);
    ParentIsTop(fs, k);
    var below := Below(fs, k);
    forall i: nat ensures i in Elems(below) <==> i in Enclosing(fs, k) {
      if i < k {
        EndedOrEnclosing(fs, i, k);
      }
    }
  }

  /** The parent of every frame is the innermost frame that encloses it. */
  lemma ParentIsInnermost(fs: seq<Frame>, k: nat)
    requires Sorted(fs) && Intervals(fs) && Laminar(fs) && k < |fs|
    ensures match Build(fs).parents[k]
      case None => Enclosing(fs, k) == {}
      case Some(p) => Innermost(fs, p, k)
  {
    hide Build; hide Run; hide Below;
    BelowIsEnclosing(fs, k);
    ParentIsTop(fs, k);
    var below := Below(fs, k);
    if below == [] {
      assert Elems(below) == {};
    } else {
      var p := below[|below| - 1];
      assert p in Elems(below);
      forall i: nat | i in Enclosing(fs, k) && i != p ensures Encloses(fs, i, p) {
        assert i in Elems(below);
        var a: nat :| a < |below| && below[a] == i;
        assert i < p;
      }
    }
  }

  /** The depth of every frame is the number of frames that enclose it, plus one. */
  lemma DepthCountsEnclosing(fs: seq<Frame>, k: nat)
    requires Sorted(fs) && Intervals(fs) && Laminar(fs) && k < |fs|
    ensures Build(fs).depths[k] == |Enclosing(fs, k)| + 1
  {
    hide Build; hide Run; hide Below;
    BelowIsEnclosing(fs, k);
    ParentIsTop(fs, k);
    DistinctCardinality(Below(fs, k));
  }

  /** Two frames of which the second starts exactly when the first ends, and lasts:
      the first is recorded as the parent of the second without enclosing it. */
  lemma TouchingSiblings(a: nat, b: nat, c: nat)
    requires a <= b < c
    ensures var fs := [Frame(a, b), Frame(b, c)];
      Sorted(fs) && Build(fs).parents[1] == Some(0) && !Encloses(fs, 0, 1)
  {
    var fs := [Frame(a, b), Frame(b, c)];
    var s0 := Run(fs, 0);
    var s1 := Run(fs, 1);
    assert s1 == Push(fs, s0);
    assert LeaveEnded(fs, s1, b) == s1;
    assert Run(fs, 2) == Push(fs, s1);
    assert Build(fs).parents == Run(fs, 2).parents;
  }

  // ----- Frames in any order -----

  /** If `a` does not start after `b`, it has ended before `b` starts or encloses it. */
  predicate MayPrecede(a: Frame, b: Frame) {
    a.start <= b.start ==> a.end < b.start || b.end <= a.end
  }

  /** Any two frames are apart or nested; the ones that start together must also end
      together, as either of them may come first. */
  predicate Nested(events: seq<Frame>) {
    forall i: nat, k: nat :: i < |events| && k < |events| && i != k ==> MayPrecede(events[i], events[k])
  }

  lemma NestedStartsTogether(events: seq<Frame>, i: nat, k: nat)
    requires Nested(events) && Intervals(events) && i < |events| && k < |events| && events[i].start == events[k].start
    ensures events[i].end == events[k].end
  {
    if i != k {
      assert MayPrecede(events[i], events[k]) && MayPrecede(events[k], events[i]);
    }
  }

  lemma SortedNestedIsLaminar(events: seq<Frame>, fs: seq<Frame>)
    requires Nested(events) && multiset(fs) == multiset(events) && Sorted(fs)
    ensures Laminar(fs)
  {
    forall i: nat, k: nat | i < k < |fs| ensures fs[i].end < fs[k].start || Encloses(fs, i, k) {
      if fs[i] != fs[k] {
        assert fs[i] in multiset(fs) && fs[k] in multiset(fs);
        var x: nat :| x < |events| && events[x] == fs[i];
        var y: nat :| y < |events| && events[y] == fs[k];
        assert MayPrecede(events[x], events[y]);
      }
    }
  }

  /** Some sorted order of the frames. */
  ghost function Insert(f: Frame, fs: seq<Frame>): (r: seq<Frame>)
    requires Sorted(fs)
    ensures Sorted(r) && multiset(r) == multiset{f} + multiset(fs)
  {
    if fs == [] || f.start <= fs[0].start then
      assert multiset([f] + fs) == multiset{f} + multiset(fs);
      [f] + fs
    else
      var t := Insert(f, fs[1..]);
      assert fs == [fs[0]] + fs[1..];
      InsertedAfter(f, fs[0], fs[1..], t);
      [fs[0]] + t
  }

  lemma InsertedAfter(f: Frame, h: Frame, fs: seq<Frame>, t: seq<Frame>)
    requires Sorted([h] + fs) && h.start < f.start && Sorted(t) && multiset(t) == multiset{f} + multiset(fs)
    ensures Sorted([h] + t) && multiset([h] + t) == multiset{f} + multiset([h] + fs)
  {
    forall j: nat | j < |t| ensures h.start <= t[j].start {
      assert t[j] in multiset(t);
      if t[j] != f {
        var x :| 0 <= x < |fs| && fs[x] == t[j];
        assert ([h] + fs)[0] == h && ([h] + fs)[x + 1] == t[j];
      }
    }
  }

  ghost function SortedEvents(events: seq<Frame>): (fs: seq<Frame>)
    ensures Sorted(fs) && multiset(fs) == multiset(events)
  {
    if events == [] then []
    else
      assert events == [events[0]] + events[1..];
      Insert(events[0], SortedEvents(events[1..]))
  }

  /** Exchanging two frames that start together keeps a sorted order. */
  lemma ExchangeKeepsOrder(fs: seq<Frame>, p: nat, q: nat)
    requires Sorted(fs) && p < q < |fs| && fs[p].start == fs[q].start
    ensures var gs := fs[p := fs[q]][q := fs[p]];
      Sorted(gs) && multiset(gs) == multiset(fs)
  {
  }

  lemma BadPairHasBadOrder(events: seq<Frame>, a: Frame, b: Frame) returns (fs: seq<Frame>)
    requires a in events && b in events && !MayPrecede(a, b)
    ensures multiset(fs) == multiset(events) && Sorted(fs) && !Laminar(fs)
  {
    fs := SortedEvents(events);
    assert a in multiset(events) && b in multiset(events);
    assert a in multiset(fs) && b in multiset(fs);
    var p: nat :| p < |fs| && fs[p] == a;
    var q: nat :| q < |fs| && fs[q] == b;
    if q < p {
      ExchangeKeepsOrder(fs, q, p);
      fs := fs[q := a][p := b];
      assert fs[q] == a && fs[p] == b && !Encloses(fs, q, p);
    } else {
      assert !Encloses(fs, p, q);
    }
  }

  /** Every way to sort the frames by their starts yields laminar ones if and only if they
      are nested. */
  lemma AlwaysLaminarIffNested(events: seq<Frame>)
    ensures (forall fs :: multiset(fs) == multiset(events) && Sorted(fs) ==> Laminar(fs)) <==> Nested(events)
  {
    if Nested(events) {
      forall fs | multiset(fs) == multiset(events) && Sorted(fs) ensures Laminar(fs) {
        SortedNestedIsLaminar(events, fs);
      }
    } else {
      var i: nat, k: nat :| i < |events| && k < |events| && i != k && !MayPrecede(events[i], events[k]);
      var fs := BadPairHasBadOrder(events, events[i], events[k]);
    }
  }

  /** Two frames that start together, the one that ends first in front: it is recorded as
      the parent of the other one, which encloses it. */
  lemma EqualStarts(a: nat, b: nat, c: nat)
    requires a <= b < c
    ensures var fs := [Frame(a, b), Frame(a, c)];
      Sorted(fs) && Build(fs).parents[1] == Some(0) && !Encloses(fs, 0, 1) && !Nested(fs) && Laminar([fs[1], fs[0]])
  {
    var fs := [Frame(a, b), Frame(a, c)];
    var s0 := Run(fs, 0);
    var s1 := Run(fs, 1);
    assert s1 == Push(fs, s0);
    assert LeaveEnded(fs, s1, a) == s1;
    assert Run(fs, 2) == Push(fs, s1);
    assert Build(fs).parents == Run(fs, 2).parents;
    assert !MayPrecede(fs[0], fs[1]);
  }

  // ----- Children -----

  lemma {:induction false} KidsAre(parents: seq<Option<nat>>, f: nat)
    ensures forall c: nat :: c in Kids(parents, f) <==> c < |parents| && parents[c] == Some(f)
    ensures Ascending(Kids(parents, f))
  {
    if parents != [] {
      var t := parents[..|parents| - 1];
      KidsAre(t, f);
      forall c: nat ensures c in Kids(parents, f) <==> c < |parents| && parents[c] == Some(f) {
        if c < |t| {
          assert parents[c] == t[c];
        }
      }
      forall i: nat, j: nat | i < j < |Kids(parents, f)| ensures Kids(parents, f)[i] < Kids(parents, f)[j] {
        assert Kids(parents, f)[i] in Kids(t, f) || j < |Kids(t, f)|;
        if j == |Kids(t, f)| {
          assert Kids(t, f)[i] in Kids(t, f);
        }
      }
    }
  }
}
