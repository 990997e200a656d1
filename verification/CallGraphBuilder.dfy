/** The program's loops that reconstruct the call graph of one core: a stack, the end of
    the previous period, and maps from frames to their children and periods. */
module CallGraphBuilder {
  import opened Wrappers
  import opened CallGraph
  import opened CallGraphPeriods
  import Sorting

  /** The map holds the periods of every frame that has some, and no other frame. */
  ghost predicate Lists(log: seq<Period>, periods: map<nat, seq<Period>>) {
    forall f: nat :: Of(log, f) == if f in periods then periods[f] else []
  }

  lemma RankIs(log: seq<Period>, periods: map<nat, seq<Period>>, f: nat)
    requires Lists(log, periods)
    ensures |Of(log, f)| == if f in periods then |periods[f]| else 0
  {
  }

  lemma ListsOneMore(log: seq<Period>, a: map<nat, seq<Period>>, p: Period, b: map<nat, seq<Period>>)
    requires Lists(log, a) && p.frame in b && b == a[p.frame := b[p.frame]]
    requires b[p.frame] == (if p.frame in a then a[p.frame] else []) + [p]
    ensures Lists(log + [p], b)
  {
    hide Of;
    forall f: nat ensures Of(log + [p], f) == if f in b then b[f] else [] {
      OfAppend(log, p, f);
    }
  }

  class Builder {
    const frames: seq<Frame>
    var stack: seq<nat>
    var prev: nat
    var parents: seq<Option<nat>>
    var depths: seq<nat>
    var children: map<nat, seq<nat>>
    var periods: map<nat, seq<Period>>
    var log: seq<Period>

    constructor (fs: seq<Frame>)
      ensures frames == fs && Current() == Run(fs, 0) && MapsOk()
    {
      frames := fs;
      stack, prev, parents, depths, log := [], 0, [], [], [];
      children, periods := map[], map[];
    }

    ghost function Current(): State
      reads this
    {
      State(stack, prev, parents, depths, log)
    }

    ghost predicate PeriodsListed()
      reads `log, `periods
    {
      Lists(log, periods)
    }

    ghost predicate ChildrenListed()
      reads `parents, `children
    {
      forall f: nat :: Kids(parents, f) == if f in children then children[f] else []
    }

    ghost predicate MapsOk()
      reads `log, `periods, `parents, `children
    {
      PeriodsListed() && ChildrenListed()
    }

    /** Records a period of the frame on top of the stack, up to a time. */
    method TracePeriod(to: nat)
      requires stack != [] && PeriodsListed()
      modifies `periods, `log, `prev
      ensures Current() == AddPeriod(old(Current()), to) && PeriodsListed()
    {
      hide Of; hide Lists;
      var top := stack[|stack| - 1];
      var rank := 0;
      RankIs(log, periods, top);
      ghost var before := periods;
      if top !in periods {
        periods := periods[top := [Period(top, prev, to, 0)]];
      } else {
        rank := |periods[top]|;
        periods := periods[top := periods[top] + [Period(top, prev, to, rank)]];
      }
      var period := Period(top, prev, to, rank);
      ListsOneMore(log, before, period, periods);
      log := log + [period];
      prev := to;
    }

    method AddChild(parent: nat, child: nat)
      requires ChildrenListed() && child == |parents|
      modifies `children, `parents
      ensures parents == old(parents) + [Some(parent)] && ChildrenListed()
    {
      if parent !in children {
        children := children[parent := [child]];
      } else {
        children := children[parent := children[parent] + [child]];
      }
      forall f: nat ensures Kids(parents + [Some(parent)], f) == if f in children then children[f] else [] {
        KidsAppend(parents, Some(parent), f);
      }
      parents := parents + [Some(parent)];
    }

    method AddRoot()
      requires ChildrenListed()
      modifies `parents
      ensures parents == old(parents) + [None] && ChildrenListed()
    {
      forall f: nat ensures Kids(parents + [None], f) == Kids(parents, f) {
        KidsAppend(parents, None, f);
      }
      parents := parents + [None];
    }

    /** Pops the frame on top, which has ended. */
    method PopFrame()
      requires StackOk(frames, Current()) && stack != [] && MapsOk()
      modifies `periods, `log, `prev, `stack
      ensures Current() == Leave(frames, old(Current())) && MapsOk()
    {
      hide Of; hide Kids; hide PeriodsListed; hide ChildrenListed;
      TracePeriod(frames[stack[|stack| - 1]].end);
      stack := stack[..|stack| - 1];
    }

    /** The loop that rolls back the stack when frame `k` starts, and traces the period
        of the frame it finds on top. */
    method RollBack(k: nat)
      requires k < |frames| && StackOk(frames, Current()) && MapsOk()
      modifies `periods, `log, `prev, `stack
      ensures MapsOk() && prev == frames[k].start
      ensures var s := LeaveEnded(frames, old(Current()), frames[k].start);
        stack == s.stack && log == if s.stack == [] then s.log else AddPeriod(s, frames[k].start).log
    {
      hide Of; hide Kids; hide PeriodsListed; hide ChildrenListed;
      var processExits := true;
      ghost var s := LeaveEnded(frames, Current(), frames[k].start);
      while processExits
        invariant MapsOk() && StackOk(frames, Current())
        invariant processExits ==> LeaveEnded(frames, Current(), frames[k].start) == s
        invariant !processExits ==> prev == frames[k].start && stack == s.stack
        invariant !processExits ==> log == if s.stack == [] then s.log else AddPeriod(s, frames[k].start).log
        decreases |stack|, processExits
      {
        if |stack| > 0 {
          var top := stack[|stack| - 1];
          if frames[top].end < frames[k].start {
            PopFrame();
          } else {
            TracePeriod(frames[k].start);
            processExits := false;
          }
        } else {
          processExits := false;
          prev := frames[k].start;
        }
      }
    }

    /** One round of the loop over the frames in the order of their starts. */
    method StartFrame(k: nat)
      requires k == |parents| < |frames| && StackOk(frames, Current()) && MapsOk()
      modifies this
      ensures Current() == Enter(frames, old(Current())) && MapsOk()
    {
      hide Of; hide Kids; hide LeaveEnded; hide PeriodsListed; hide ChildrenListed;
      RollBack(k);
      if |stack| > 0 {
        AddChild(stack[|stack| - 1], k);
      } else {
        AddRoot();
      }
      depths := depths + [|stack| + 1];
      stack := stack + [k];
    }

    /** The loop after the last frame. */
    method RollBackAll()
      requires StackOk(frames, Current()) && MapsOk()
      modifies `periods, `log, `prev, `stack
      ensures Current() == LeaveAll(frames, old(Current())) && MapsOk()
    {
      hide Of; hide Kids; hide PeriodsListed; hide ChildrenListed;
      var processExits := true;
      ghost var s := LeaveAll(frames, Current());
      while processExits
        invariant StackOk(frames, Current()) && MapsOk() && LeaveAll(frames, Current()) == s
        invariant !processExits ==> stack == []
        decreases |stack|, processExits
      {
        if |stack| > 0 {
          PopFrame();
        } else {
          processExits := false;
        }
      }
    }

    /** The reconstruction for one core, of which no frame has been handled yet. */
    method BuildCallGraph()
      requires Current() == Run(frames, 0) && MapsOk()
      modifies this
      ensures Current() == Build(frames) && MapsOk()
    {
      hide Of; hide Kids; hide PeriodsListed; hide ChildrenListed; hide Enter; hide LeaveAll;
      var k := 0;
      while k < |frames|
        invariant 0 <= k <= |frames| && Current() == Run(frames, k) && MapsOk()
      {
        StartFrame(k);
        k := k + 1;
      }
      RollBackAll();
    }
  }

  /** The periods and children of every frame, as the program leaves them: the children
      are the frames with that parent, and the periods cut the frame at them. */
  method Reconstruct(fs: seq<Frame>)
    returns (parents: seq<Option<nat>>, depths: seq<nat>, children: map<nat, seq<nat>>, periods: map<nat, seq<Period>>)
    requires Sorted(fs)
    ensures parents == Build(fs).parents && depths == Build(fs).depths
    ensures Laminar(fs) <==> ParentsEnclose(fs, parents)
    ensures forall c: nat, f: nat :: c < |fs| ==> (parents[c] == Some(f) <==> f in children && c in children[f])
    ensures forall f: nat :: f < |fs| ==> var kids := if f in children then children[f] else [];
      Within(fs, kids) && f in periods && periods[f] == Exclusive(fs, f, kids)
  {
    var b := new Builder(fs);
    b.BuildCallGraph();
    parents, depths, children, periods := b.parents, b.depths, b.children, b.periods;
    ParentsEncloseIffLaminar(fs);
    forall c: nat, f: nat | c < |fs| ensures parents[c] == Some(f) <==> f in children && c in children[f] {
      KidsAre(parents, f);
    }
    forall f: nat | f < |fs|
      ensures var kids := if f in children then children[f] else [];
        Within(fs, kids) && f in periods && periods[f] == Exclusive(fs, f, kids)
    {
      PeriodsAreExclusive(fs, f);
      assert Kids(parents, f) == if f in children then children[f] else [];
      assert Of(b.log, f) == if f in periods then periods[f] else [];
    }
  }

  /** The comparison of frames by their starts. */
  function CompareStarts(x: Frame, y: Frame): int {
    if x.start > y.start then 1 else if x.start < y.start then -1 else 0
  }

  lemma FromEvents(events: seq<Frame>, fs: seq<Frame>)
    requires multiset(fs) == multiset(events) && Sorted(fs)
    ensures |Build(fs).parents| == |Build(fs).depths| == |fs|
    ensures (Nested(events) ==> Laminar(fs)) && (Intervals(events) ==> Intervals(fs))
    ensures Laminar(fs) && Intervals(fs) ==> forall k: nat :: k < |fs| ==>
      Build(fs).depths[k] == |Enclosing(fs, k)| + 1 &&
      if Build(fs).parents[k] == None then Enclosing(fs, k) == {} else Innermost(fs, Build(fs).parents[k].value, k)
  {
    hide Build;
    if Nested(events) {
      SortedNestedIsLaminar(events, fs);
    }
    if Intervals(events) {
      forall i: nat | i < |fs| ensures fs[i].start <= fs[i].end {
        assert fs[i] in multiset(fs);
      }
    }
    if Laminar(fs) && Intervals(fs) {
      forall k: nat | k < |fs|
        ensures Build(fs).depths[k] == |Enclosing(fs, k)| + 1
        ensures if Build(fs).parents[k] == None then Enclosing(fs, k) == {}
          else Innermost(fs, Build(fs).parents[k].value, k)
      {
        DepthCountsEnclosing(fs, k);
        ParentIsInnermost(fs, k);
      }
    }
  }

  lemma StartsAreOrdered()
    ensures Sorting.Preorder(CompareStarts)
  {
  }

  lemma SortedByStarts(fs: seq<Frame>)
    requires Sorting.SortedPart(fs, 0, |fs|, CompareStarts)
    ensures Sorted(fs)
  {
    forall i: nat, j: nat | i < j < |fs| ensures fs[i].start <= fs[j].start {
      assert CompareStarts(fs[i], fs[j]) <= 0;
    }
  }

  lemma TwoStartTogether(events: seq<Frame>)
    ensures |events| == 2 && events[0].start == events[1].start ==>
      Sorting.Alike(events, 0, 2, CompareStarts) && Sorting.Unsettled(events, 0, 2) == [events[1], events[0]]
  {
  }

  /** The frames of a core are sorted by start first. The sort is not stable: of two frames
      that start together, the second one comes first. */
  method SortFrames(events: seq<Frame>) returns (fs: seq<Frame>)
    ensures multiset(fs) == multiset(events) && Sorted(fs)
    ensures |events| == 2 && events[0].start == events[1].start ==> fs == [events[1], events[0]]
  {
    hide Sorting.Preorder; hide Sorting.SortedPart; hide Sorting.Alike; hide Sorting.Unsettled; hide Sorted;
    StartsAreOrdered();
    TwoStartTogether(events);
    var a := new Frame[|events|](i requires 0 <= i < |events| => events[i]);
    assert a[..] == events;
    Sorting.Sort(a, CompareStarts);
    fs := a[..];
    SortedByStarts(fs);
  }

  /** The program's way through the frames of a core. If the frames are nested, their order
      does not matter. */
  method ReconstructEvents(events: seq<Frame>)
    returns (fs: seq<Frame>, parents: seq<Option<nat>>, depths: seq<nat>, children: map<nat, seq<nat>>,
             periods: map<nat, seq<Period>>)
    ensures multiset(fs) == multiset(events) && Sorted(fs) && |parents| == |depths| == |fs|
    ensures Laminar(fs) <==> ParentsEnclose(fs, parents)
    ensures (Nested(events) ==> Laminar(fs)) && (Intervals(events) ==> Intervals(fs))
    ensures Laminar(fs) && Intervals(fs) ==> forall k: nat :: k < |fs| ==> depths[k] == |Enclosing(fs, k)| + 1
    ensures Laminar(fs) && Intervals(fs) ==>
      forall k: nat :: k < |fs| ==>
        if parents[k] == None then Enclosing(fs, k) == {} else Innermost(fs, parents[k].value, k)
    ensures |events| == 2 && events[0].start == events[1].start ==> fs == [events[1], events[0]]
  {
    hide Nested; hide Laminar; hide Intervals; hide Enclosing; hide Innermost; hide Build; hide Sorted; hide Exclusive;
    hide ParentsEnclose; hide Within; hide Encloses;
    fs := SortFrames(events);
    FromEvents(events, fs);
    parents, depths, children, periods := Reconstruct(fs);
  }
}
