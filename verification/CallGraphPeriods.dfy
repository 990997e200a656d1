/** The periods cut by the call-graph reconstruction: what each frame gets, that nothing
    is lost, and that every instant belongs to the innermost frame active at it. */
module CallGraphPeriods {
  import opened Wrappers
  import opened Digraph
  import opened CallGraph

  // ----- The periods of one frame -----

  predicate Within(fs: seq<Frame>, s: seq<nat>) {
    forall i: nat :: i < |s| ==> s[i] < |fs|
  }

  /** Where the next period of frame `f` starts, after the given children. */
  function Cursor(fs: seq<Frame>, f: nat, kids: seq<nat>): nat
    requires f < |fs| && Within(fs, kids)
  {
    if kids == [] then fs[f].start else fs[kids[|kids| - 1]].end
  }

  /** The periods before each of the children. */
  function Before(fs: seq<Frame>, f: nat, kids: seq<nat>): (r: seq<Period>)
    requires f < |fs| && Within(fs, kids)
    ensures |r| == |kids|
  {
    if kids == [] then []
    else
      var m := |kids| - 1;
      Before(fs, f, kids[..m]) + [Period(f, Cursor(fs, f, kids[..m]), fs[kids[m]].start, m)]
  }

  /** All periods of a frame: its interval without the intervals of its children. */
  function Exclusive(fs: seq<Frame>, f: nat, kids: seq<nat>): seq<Period>
    requires f < |fs| && Within(fs, kids)
  {
    Before(fs, f, kids) + [Period(f, Cursor(fs, f, kids), fs[f].end, |kids|)]
  }

  lemma OfAppend(log: seq<Period>, p: Period, f: nat)
    ensures Of(log + [p], f) == if p.frame == f then Of(log, f) + [p] else Of(log, f)
  {
    assert (log + [p])[..|log|] == log;
  }

  lemma KidsAppend(parents: seq<Option<nat>>, p: Option<nat>, f: nat)
    ensures Kids(parents + [p], f) == if p == Some(f) then Kids(parents, f) + [|parents|] else Kids(parents, f)
  {
    assert (parents + [p])[..|parents|] == parents;
  }

  lemma KidsWithin(fs: seq<Frame>, parents: seq<Option<nat>>, f: nat)
    requires |parents| <= |fs|
    ensures Within(fs, Kids(parents, f))
  {
    KidsAre(parents, f);
    forall i: nat | i < |Kids(parents, f)| ensures Kids(parents, f)[i] < |fs| {
      assert Kids(parents, f)[i] in Kids(parents, f);
    }
  }

  /** A frame on the stack has the periods before its children so far, a frame that was
      left has all of them, and a frame yet to come has none. */
  ghost predicate FrameOk(fs: seq<Frame>, s: State, f: nat)
    requires |s.parents| <= |fs| && f < |fs|
  {
    var kids := Kids(s.parents, f);
    Within(fs, kids) &&
    Of(s.log, f) == if f >= |s.parents| || f in s.stack then Before(fs, f, kids) else Exclusive(fs, f, kids)
  }

  predicate LastKid(parents: seq<Option<nat>>, p: nat, c: nat) {
    var kids := Kids(parents, p);
    kids != [] && kids[|kids| - 1] == c
  }

  /** The last child of a frame on the stack is the frame above it. */
  ghost predicate AboveIsLastKid(s: State) {
    forall i: nat, j: nat {:trigger LastKid(s.parents, s.stack[i], s.stack[j])} :: i < j == i + 1 < |s.stack| ==>
      LastKid(s.parents, s.stack[i], s.stack[j])
  }

  ghost predicate FramesOk(fs: seq<Frame>, s: State)
    requires |s.parents| <= |fs|
  {
    forall f: nat :: f < |fs| ==> FrameOk(fs, s, f)
  }

  ghost predicate CursorOk(fs: seq<Frame>, s: State)
    requires StackOk(fs, s)
  {
    s.stack != [] ==> Within(fs, Kids(s.parents, Top(s))) && s.prev == Cursor(fs, Top(s), Kids(s.parents, Top(s)))
  }

  ghost predicate PeriodsOk(fs: seq<Frame>, s: State) {
    StackOk(fs, s) && Ascending(s.stack) && FramesOk(fs, s) && AboveIsLastKid(s) && CursorOk(fs, s)
  }

  /** The frame that is left gets its last period. */
  lemma LeaveTop(fs: seq<Frame>, s: State)
    requires PeriodsOk(fs, s) && s.stack != []
    ensures FrameOk(fs, Leave(fs, s), Top(s))
  {
    hide Of; hide Kids;
    hide AboveIsLastKid; hide Before;
    var t := Top(s);
    var r := Leave(fs, s);
    assert t in s.stack && FrameOk(fs, s, t);
    hide FramesOk;
    OfAppend(s.log, Period(t, s.prev, fs[t].end, |Of(s.log, t)|), t);
    assert t !in r.stack;
  }

  lemma LeaveOther(fs: seq<Frame>, s: State, f: nat)
    requires PeriodsOk(fs, s) && s.stack != [] && f < |fs| && f != Top(s)
    ensures FrameOk(fs, Leave(fs, s), f)
  {
    hide Of; hide Kids; hide Exclusive;
    hide AboveIsLastKid; hide Before; hide CursorOk; hide Ascending;
    var t := Top(s);
    var r := Leave(fs, s);
    assert FrameOk(fs, s, f);
    hide FramesOk;
    OfAppend(s.log, Period(t, s.prev, fs[t].end, |Of(s.log, t)|), f);
    assert s.stack == r.stack + [t];
  }

  lemma LeaveCursor(fs: seq<Frame>, s: State)
    requires PeriodsOk(fs, s) && s.stack != []
    ensures AboveIsLastKid(Leave(fs, s)) && CursorOk(fs, Leave(fs, s))
  {
    hide Before; hide Exclusive; hide Of; hide Kids;
    var r := Leave(fs, s);
    if r.stack != [] {
      var n := |r.stack|;
      assert FrameOk(fs, s, s.stack[n - 1]);
      assert LastKid(s.parents, s.stack[n - 1], s.stack[n]);
    }
    forall i: nat, j: nat | i < j == i + 1 < |r.stack| ensures LastKid(r.parents, r.stack[i], r.stack[j]) {
      assert LastKid(s.parents, s.stack[i], s.stack[j]);
    }
  }

  lemma LeaveOk(fs: seq<Frame>, s: State)
    requires PeriodsOk(fs, s) && s.stack != []
    ensures PeriodsOk(fs, Leave(fs, s))
  {
    hide FrameOk; hide AboveIsLastKid; hide CursorOk;
    var r := Leave(fs, s);
    forall f: nat | f < |fs| ensures FrameOk(fs, r, f) {
      if f == Top(s) {
        LeaveTop(fs, s);
      } else {
        LeaveOther(fs, s, f);
      }
    }
    LeaveCursor(fs, s);
  }

  lemma {:induction false} LeaveEndedOk(fs: seq<Frame>, s: State, t: nat)
    requires PeriodsOk(fs, s)
    ensures PeriodsOk(fs, LeaveEnded(fs, s, t))
    decreases |s.stack|
  {
    assert StackOk(fs, s);
    hide PeriodsOk;
    if s.stack != [] && fs[Top(s)].end < t {
      LeaveOk(fs, s);
      LeaveEndedOk(fs, Leave(fs, s), t);
    }
  }

  lemma NoKidsYet(fs: seq<Frame>, s: State, now: nat, f: nat)
    requires Stacked(fs, s, now) && f >= |s.parents|
    ensures Kids(s.parents, f) == []
  {
    KidsAre(s.parents, f);
    assert Kids(s.parents, f) != [] ==> Kids(s.parents, f)[0] in Kids(s.parents, f);
  }

  /** The frame that starts has no periods yet. */
  lemma PushNew(fs: seq<Frame>, s: State, now: nat)
    requires |s.parents| < |fs| && Stacked(fs, s, now) && PeriodsOk(fs, s)
    ensures FrameOk(fs, Push(fs, s), |s.parents|) && Kids(Push(fs, s).parents, |s.parents|) == []
  {
    hide Of; hide Kids; hide AboveIsLastKid; hide Exclusive;
    var k := |s.parents|;
    var r := Push(fs, s);
    NoKidsYet(fs, s, now, k);
    hide Stacked;
    assert FrameOk(fs, s, k);
    KidsAppend(s.parents, r.parents[k], k);
    assert r.stack[|s.stack|] == k;
    if s.stack != [] {
      OfAppend(s.log, Period(Top(s), s.prev, fs[k].start, |Of(s.log, Top(s))|), k);
    }
  }

  /** The frame on top gets the period before its new child. */
  lemma PushParent(fs: seq<Frame>, s: State)
    requires |s.parents| < |fs| && PeriodsOk(fs, s) && s.stack != []
    ensures FrameOk(fs, Push(fs, s), Top(s))
    ensures Kids(Push(fs, s).parents, Top(s)) == Kids(s.parents, Top(s)) + [|s.parents|]
  {
    hide Of; hide Kids; hide Exclusive;
    hide Before; hide AboveIsLastKid;
    var k := |s.parents|;
    var t := Top(s);
    var r := Push(fs, s);
    assert t in s.stack && r.stack[|s.stack| - 1] == t;
    assert FrameOk(fs, s, t);
    KidsAppend(s.parents, r.parents[k], t);
    OfAppend(s.log, Period(t, s.prev, fs[k].start, |Of(s.log, t)|), t);
    BeforeAppend(fs, t, Kids(s.parents, t), k);
  }

  lemma PushOther(fs: seq<Frame>, s: State, f: nat)
    requires |s.parents| < |fs| && PeriodsOk(fs, s) && f < |fs| && f != |s.parents| && (s.stack == [] || f != Top(s))
    ensures FrameOk(fs, Push(fs, s), f) && Kids(Push(fs, s).parents, f) == Kids(s.parents, f)
  {
    hide Of; hide Kids; hide Exclusive;
    hide Before; hide AboveIsLastKid; hide CursorOk;
    var k := |s.parents|;
    var r := Push(fs, s);
    assert FrameOk(fs, s, f);
    KidsAppend(s.parents, r.parents[k], f);
    assert r.stack == s.stack + [k] && r.parents == s.parents + [r.parents[k]];
    assert f in r.stack <==> f in s.stack by {
      if f in s.stack {
        var a: nat :| a < |s.stack| && s.stack[a] == f;
        assert r.stack[a] == f;
      }
    }
    if s.stack != [] {
      OfAppend(s.log, Period(Top(s), s.prev, fs[k].start, |Of(s.log, Top(s))|), f);
    }
  }

  lemma BeforeAppend(fs: seq<Frame>, f: nat, kids: seq<nat>, k: nat)
    requires f < |fs| && k < |fs| && Within(fs, kids)
    ensures Within(fs, kids + [k])
    ensures Before(fs, f, kids + [k]) == Before(fs, f, kids) + [Period(f, Cursor(fs, f, kids), fs[k].start, |kids|)]
  {
    assert (kids + [k])[..|kids|] == kids;
  }

  lemma PushAbove(fs: seq<Frame>, s: State)
    requires |s.parents| < |fs| && PeriodsOk(fs, s)
    ensures AboveIsLastKid(Push(fs, s))
  {
    hide Of; hide Kids;
    hide FrameOk; hide CursorOk; hide FramesOk;
    var k := |s.parents|;
    var r := Push(fs, s);
    forall i: nat, j: nat | i < j == i + 1 < |r.stack| ensures LastKid(r.parents, r.stack[i], r.stack[j]) {
      KidsAppend(s.parents, r.parents[k], r.stack[i]);
      assert r.stack[i] == s.stack[i];
      if j < |s.stack| {
        assert s.stack[i] < Top(s) && LastKid(s.parents, s.stack[i], s.stack[j]);
      }
    }
  }

  lemma PushOk(fs: seq<Frame>, s: State, now: nat)
    requires |s.parents| < |fs| && Stacked(fs, s, now) && PeriodsOk(fs, s)
    ensures PeriodsOk(fs, Push(fs, s))
  {
    hide FrameOk;
    var k := |s.parents|;
    var r := Push(fs, s);
    assert Ascending(r.stack) by { PushAscending(s.stack, k); }
    PushNew(fs, s, now);
    forall f: nat | f < |fs| ensures FrameOk(fs, r, f) {
      if f == k {
      } else if s.stack != [] && f == Top(s) {
        PushParent(fs, s);
      } else {
        PushOther(fs, s, f);
      }
    }
    PushAbove(fs, s);
  }

  lemma PushAscending(stack: seq<nat>, k: nat)
    requires Ascending(stack) && forall i: nat :: i < |stack| ==> stack[i] < k
    ensures Ascending(stack + [k])
  {
  }

  lemma StartOk(fs: seq<Frame>)
    ensures PeriodsOk(fs, Run(fs, 0))
  {
  }

  lemma {:induction false} RunOk(fs: seq<Frame>, n: nat)
    requires Sorted(fs) && n <= |fs|
    ensures PeriodsOk(fs, Run(fs, n))
  {
    hide PeriodsOk; hide Stacked; hide Push;
    if n == 0 {
      StartOk(fs);
    } else {
      RunOk(fs, n - 1);
      RunStacked(fs, n - 1);
      var s := Run(fs, n - 1);
      var t := fs[n - 1].start;
      Later(fs, s, if n == 1 then 0 else fs[n - 2].start, t);
      LeaveEndedStacked(fs, s, t);
      LeaveEndedOk(fs, s, t);
      PushOk(fs, LeaveEnded(fs, s, t), t);
    }
  }

  lemma {:induction false} LeaveAllOk(fs: seq<Frame>, s: State)
    requires PeriodsOk(fs, s)
    ensures PeriodsOk(fs, LeaveAll(fs, s))
    decreases |s.stack|
  {
    assert StackOk(fs, s);
    hide PeriodsOk;
    if s.stack != [] {
      LeaveOk(fs, s);
      LeaveAllOk(fs, Leave(fs, s));
    }
  }

  /** The periods recorded for a frame, in rank order, are its interval cut at its
      children, whatever the frames are. */
  lemma PeriodsAreExclusive(fs: seq<Frame>, f: nat)
    requires Sorted(fs) && f < |fs|
    ensures var kids := Kids(Build(fs).parents, f); Within(fs, kids) && Of(Build(fs).log, f) == Exclusive(fs, f, kids)
  {
    RunOk(fs, |fs|);
    LeaveAllOk(fs, Run(fs, |fs|));
    assert FrameOk(fs, Build(fs), f);
  }

  // ----- Conservation of time -----

  function Duration(fs: seq<Frame>, f: nat): int
    requires f < |fs|
  {
    fs[f].end - fs[f].start
  }

  function Durations(fs: seq<Frame>, s: seq<nat>): int
    requires Within(fs, s)
  {
    if s == [] then 0 else Durations(fs, s[..|s| - 1]) + Duration(fs, s[|s| - 1])
  }

  function Length(ps: seq<Period>): int {
    if ps == [] then 0 else Length(ps[..|ps| - 1]) + ps[|ps| - 1].to - ps[|ps| - 1].from
  }

  lemma LengthAppend(ps: seq<Period>, p: Period)
    ensures Length(ps + [p]) == Length(ps) + p.to - p.from
  {
    assert (ps + [p])[..|ps|] == ps;
  }

  lemma {:induction false} BeforeLength(fs: seq<Frame>, f: nat, kids: seq<nat>)
    requires f < |fs| && Within(fs, kids)
    ensures Length(Before(fs, f, kids)) == Cursor(fs, f, kids) - fs[f].start - Durations(fs, kids)
  {
    if kids != [] {
      var m := |kids| - 1;
      BeforeLength(fs, f, kids[..m]);
      LengthAppend(Before(fs, f, kids[..m]), Period(f, Cursor(fs, f, kids[..m]), fs[kids[m]].start, m));
    }
  }

  lemma ExclusiveLength(fs: seq<Frame>, f: nat, kids: seq<nat>)
    requires f < |fs| && Within(fs, kids)
    ensures Length(Exclusive(fs, f, kids)) == Duration(fs, f) - Durations(fs, kids)
  {
    BeforeLength(fs, f, kids);
    LengthAppend(Before(fs, f, kids), Period(f, Cursor(fs, f, kids), fs[f].end, |kids|));
  }

  predicate After(s: seq<nat>, f: nat, n: nat) {
    forall i: nat :: i < |s| ==> f < s[i] < n
  }

  lemma KidsAfter(fs: seq<Frame>, f: nat)
    requires Sorted(fs)
    ensures After(Kids(Build(fs).parents, f), f, |fs|)
  {
    hide Build;
    var parents := Build(fs).parents;
    KidsAre(parents, f);
    forall i: nat | i < |Kids(parents, f)| ensures f < Kids(parents, f)[i] < |fs| {
      assert Kids(parents, f)[i] in Kids(parents, f);
      ParentBelow(fs, Kids(parents, f)[i]);
    }
  }

  /** The time recorded for a frame and everything below it in the call graph. */
  ghost function Total(fs: seq<Frame>, f: nat): int
    requires Sorted(fs) && f < |fs|
    decreases |fs| - f, 1, 0
  {
    KidsAfter(fs, f);
    Length(Of(Build(fs).log, f)) + Totals(fs, f, Kids(Build(fs).parents, f))
  }

  ghost function Totals(fs: seq<Frame>, f: nat, s: seq<nat>): int
    requires Sorted(fs) && f < |fs| && After(s, f, |fs|)
    decreases |fs| - f, 0, |s|
  {
    if s == [] then 0 else Totals(fs, f, s[..|s| - 1]) + Total(fs, s[|s| - 1])
  }

  lemma {:induction false} TotalsAreDurations(fs: seq<Frame>, f: nat, s: seq<nat>)
    requires Sorted(fs) && f < |fs| && After(s, f, |fs|)
    ensures Totals(fs, f, s) == Durations(fs, s)
    decreases |fs| - f, 0, |s|
  {
    hide Total;
    if s != [] {
      TotalsAreDurations(fs, f, s[..|s| - 1]);
      TimeIsConserved(fs, s[|s| - 1]);
    }
  }

  /** The periods of a frame and of all its descendants sum up to its duration. */
  lemma {:induction false} TimeIsConserved(fs: seq<Frame>, f: nat)
    requires Sorted(fs) && f < |fs|
    ensures Total(fs, f) == Duration(fs, f)
    decreases |fs| - f, 1, 0
  {
    hide Build; hide Exclusive; hide Duration;
    PeriodsAreExclusive(fs, f);
    KidsAfter(fs, f);
    ExclusiveLength(fs, f, Kids(Build(fs).parents, f));
    TotalsAreDurations(fs, f, Kids(Build(fs).parents, f));
  }

  // ----- The order of periods -----

  /** Periods do not overlap and come in the order of time. */
  ghost predicate InOrder(log: seq<Period>) {
    forall i: nat, j: nat :: i < j == i + 1 < |log| ==> log[i].to <= log[j].from
  }

  ghost predicate LogOk(s: State, now: nat) {
    InOrder(s.log) && s.prev <= now && (s.log != [] ==> s.log[|s.log| - 1].to <= s.prev)
  }

  lemma LeaveLog(fs: seq<Frame>, s: State, now: nat)
    requires StackOk(fs, s) && s.stack != [] && LogOk(s, now) && fs[Top(s)].end <= now
    ensures LogOk(Leave(fs, s), now)
  {
  }

  lemma {:induction false} LeaveEndedLog(fs: seq<Frame>, s: State, now: nat)
    requires StackOk(fs, s) && LogOk(s, now)
    ensures LogOk(LeaveEnded(fs, s, now), now)
    decreases |s.stack|
  {
    hide LogOk;
    if s.stack != [] && fs[Top(s)].end < now {
      LeaveLog(fs, s, now);
      LeaveEndedLog(fs, Leave(fs, s), now);
    }
  }

  lemma PushLog(fs: seq<Frame>, s: State)
    requires StackOk(fs, s) && |s.parents| < |fs| && LogOk(s, fs[|s.parents|].start)
    ensures LogOk(Push(fs, s), fs[|s.parents|].start)
  {
  }

  lemma {:induction false} RunLog(fs: seq<Frame>, n: nat)
    requires Sorted(fs) && n <= |fs|
    ensures LogOk(Run(fs, n), if n == 0 then 0 else fs[n - 1].start)
  {
    if n > 0 {
      RunLog(fs, n - 1);
      var s := Run(fs, n - 1);
      assert LogOk(s, fs[n - 1].start);
      hide LogOk; hide LeaveEnded; hide Push;
      LeaveEndedLog(fs, s, fs[n - 1].start);
      PushLog(fs, LeaveEnded(fs, s, fs[n - 1].start));
    }
  }

  lemma {:induction false} LeaveAllLog(fs: seq<Frame>, s: State)
    requires StackOk(fs, s) && InOrder(s.log) && (s.log != [] ==> s.log[|s.log| - 1].to <= s.prev)
    ensures InOrder(LeaveAll(fs, s).log)
    decreases |s.stack|
  {
    if s.stack != [] {
      LeaveAllLog(fs, Leave(fs, s));
    }
  }

  /** Each recorded period starts at the end of the one before it, or later. */
  lemma PeriodsInOrder(fs: seq<Frame>)
    requires Sorted(fs)
    ensures InOrder(Build(fs).log)
  {
    RunLog(fs, |fs|);
    LeaveAllLog(fs, Run(fs, |fs|));
  }

  ghost predicate Forward(ps: seq<Period>) {
    forall i: nat :: i < |ps| ==> ps[i].from <= ps[i].to
  }

  lemma {:induction false} SortedPeriods(log: seq<Period>, i: nat, j: nat)
    requires InOrder(log) && Forward(log) && i < j < |log|
    ensures log[i].to <= log[j].from
    decreases j
  {
    assert log[j - 1].to <= log[j].from;
    if i < j - 1 {
      SortedPeriods(log, i, j - 1);
    }
  }

  // ----- Siblings -----

  /** Children start within their parent and are separated by more than their ends. */
  ghost predicate Separated(fs: seq<Frame>, f: nat, kids: seq<nat>)
    requires f < |fs| && Within(fs, kids)
  {
    && (forall i: nat :: i < |kids| ==> fs[f].start <= fs[kids[i]].start <= fs[f].end)
    && (forall i: nat, j: nat :: i < j < |kids| ==> fs[kids[i]].end < fs[kids[j]].start)
  }

  lemma SiblingEnded(fs: seq<Frame>, i: nat, j: nat)
    requires Sorted(fs) && i < j < |fs| && Build(fs).parents[i].Some? && Build(fs).parents[i] == Build(fs).parents[j]
    ensures fs[i].end < fs[j].start
  {
    hide Build; hide Run; hide Below;
    ParentIsTop(fs, j);
    ParentBelow(fs, i);
    var below := Below(fs, j);
    var stack := Run(fs, j + 1).stack;
    forall a: nat | a < |below| ensures below[a] != i {
      assert stack[a] == below[a];
      assert a < |below| - 1 ==> stack[a] < stack[|below| - 1];
    }
    EndedBefore(fs, i, j);
  }

  lemma KidsSeparated(fs: seq<Frame>, f: nat)
    requires Sorted(fs) && f < |fs|
    ensures var kids := Kids(Build(fs).parents, f); Within(fs, kids) && Separated(fs, f, kids)
  {
    hide Build;
    var parents := Build(fs).parents;
    var kids := Kids(parents, f);
    KidsWithin(fs, parents, f);
    KidsAre(parents, f);
    assert forall i: nat :: i < |kids| ==> kids[i] in kids;
    forall i: nat | i < |kids| ensures fs[f].start <= fs[kids[i]].start <= fs[f].end {
      ParentBelow(fs, kids[i]);
      ParentIsTop(fs, kids[i]);
    }
    forall i: nat, j: nat | i < j < |kids| ensures fs[kids[i]].end < fs[kids[j]].start {
      SiblingEnded(fs, kids[i], kids[j]);
    }
  }

  // ----- Well-formed periods -----

  lemma {:induction false} OfIs(log: seq<Period>, f: nat)
    ensures forall p :: p in Of(log, f) <==> p in log && p.frame == f
  {
    if log != [] {
      var m := |log| - 1;
      OfIs(log[..m], f);
      assert log == log[..m] + [log[m]];
    }
  }

  lemma {:induction false} BeforeForward(fs: seq<Frame>, f: nat, kids: seq<nat>)
    requires f < |fs| && Within(fs, kids) && Separated(fs, f, kids)
    ensures Forward(Before(fs, f, kids))
  {
    if kids != [] {
      BeforeForward(fs, f, kids[..|kids| - 1]);
    }
  }

  lemma ExclusiveForward(fs: seq<Frame>, f: nat, kids: seq<nat>)
    requires f < |fs| && Within(fs, kids) && Separated(fs, f, kids)
    ensures Forward(Exclusive(fs, f, kids)) <==> Cursor(fs, f, kids) <= fs[f].end
  {
    BeforeForward(fs, f, kids);
    var ps := Exclusive(fs, f, kids);
    assert ps[|kids|] == Period(f, Cursor(fs, f, kids), fs[f].end, |kids|);
  }

  ghost predicate KidsEnclosed(fs: seq<Frame>, f: nat, kids: seq<nat>)
    requires f < |fs| && Within(fs, kids)
  {
    forall i: nat :: i < |kids| ==> fs[kids[i]].end <= fs[f].end
  }

  /** Children that are apart end within their parent if the last one does. */
  lemma CursorTells(fs: seq<Frame>, f: nat, kids: seq<nat>)
    requires Intervals(fs) && f < |fs| && Within(fs, kids) && Separated(fs, f, kids)
    ensures Cursor(fs, f, kids) <= fs[f].end <==> KidsEnclosed(fs, f, kids)
  {
    var m := |kids| - 1;
    forall i: nat | i < m ensures fs[kids[i]].end <= fs[f].end {
      assert fs[kids[i]].end < fs[kids[m]].start;
    }
  }

  lemma FrameForward(fs: seq<Frame>, f: nat)
    requires Sorted(fs) && Intervals(fs) && f < |fs|
    ensures var kids := Kids(Build(fs).parents, f);
      Within(fs, kids) && (Forward(Of(Build(fs).log, f)) <==> KidsEnclosed(fs, f, kids))
  {
    hide Build; hide Separated;
    PeriodsAreExclusive(fs, f);
    KidsSeparated(fs, f);
    ExclusiveForward(fs, f, Kids(Build(fs).parents, f));
    CursorTells(fs, f, Kids(Build(fs).parents, f));
  }

  ghost predicate EachForward(fs: seq<Frame>, log: seq<Period>) {
    forall f: nat :: f < |fs| ==> Forward(Of(log, f))
  }

  lemma ForwardIffEachFrame(fs: seq<Frame>)
    requires Sorted(fs)
    ensures Forward(Build(fs).log) <==> EachForward(fs, Build(fs).log)
  {
    hide Build;
    var log := Build(fs).log;
    if Forward(log) {
      forall f: nat | f < |fs| ensures Forward(Of(log, f)) {
        OfIs(log, f);
        forall i: nat | i < |Of(log, f)| ensures Of(log, f)[i].from <= Of(log, f)[i].to {
          assert Of(log, f)[i] in Of(log, f);
        }
      }
    }
    if EachForward(fs, log) {
      forall i: nat | i < |log| ensures log[i].from <= log[i].to {
        LogFrames(fs, i);
        OfIs(log, log[i].frame);
        assert log[i] in Of(log, log[i].frame);
      }
    }
  }

  ghost predicate KnownFrames(fs: seq<Frame>, s: State) {
    forall i: nat :: i < |s.log| ==> s.log[i].frame < |fs|
  }

  lemma {:induction false} LeaveEndedKnown(fs: seq<Frame>, s: State, t: nat)
    requires StackOk(fs, s) && KnownFrames(fs, s)
    ensures KnownFrames(fs, LeaveEnded(fs, s, t))
    decreases |s.stack|
  {
    if s.stack != [] && fs[Top(s)].end < t {
      LeaveEndedKnown(fs, Leave(fs, s), t);
    }
  }

  lemma {:induction false} RunKnown(fs: seq<Frame>, n: nat)
    requires n <= |fs|
    ensures KnownFrames(fs, Run(fs, n))
  {
    if n > 0 {
      RunKnown(fs, n - 1);
      LeaveEndedKnown(fs, Run(fs, n - 1), fs[n - 1].start);
    }
  }

  lemma {:induction false} LeaveAllKnown(fs: seq<Frame>, s: State)
    requires StackOk(fs, s) && KnownFrames(fs, s)
    ensures KnownFrames(fs, LeaveAll(fs, s))
    decreases |s.stack|
  {
    if s.stack != [] {
      LeaveAllKnown(fs, Leave(fs, s));
    }
  }

  lemma LogFrames(fs: seq<Frame>, i: nat)
    requires i < |Build(fs).log|
    ensures Build(fs).log[i].frame < |fs|
  {
    RunKnown(fs, |fs|);
    LeaveAllKnown(fs, Run(fs, |fs|));
  }

  /** No recorded period is inverted exactly if the frames are laminar. */
  lemma ForwardIffLaminar(fs: seq<Frame>)
    requires Sorted(fs) && Intervals(fs)
    ensures Forward(Build(fs).log) <==> Laminar(fs)
  {
    hide Build; hide Laminar;
    var parents := Build(fs).parents;
    ForwardIffEachFrame(fs);
    ParentsEncloseIffLaminar(fs);
    if ParentsEnclose(fs, parents) {
      forall f: nat | f < |fs| ensures Forward(Of(Build(fs).log, f)) {
        FrameForward(fs, f);
        KidsAre(parents, f);
        var kids := Kids(parents, f);
        forall i: nat | i < |kids| ensures fs[kids[i]].end <= fs[f].end {
          assert kids[i] in kids;
        }
      }
    }
    if EachForward(fs, Build(fs).log) {
      forall k: nat | k < |fs| && parents[k].Some?
        ensures parents[k].value < |fs| && Encloses(fs, parents[k].value, k)
      {
        ParentBelow(fs, k);
        var f := parents[k].value;
        FrameForward(fs, f);
        KidsAre(parents, f);
        assert k in Kids(parents, f);
      }
    }
  }

  /** For laminar frames the array of periods is sorted by starts and by ends, as the
      search for overlapping periods needs it. */
  lemma PeriodArrayIsSorted(fs: seq<Frame>, i: nat, j: nat)
    requires Sorted(fs) && Intervals(fs) && Laminar(fs) && i < j < |Build(fs).log|
    ensures var log := Build(fs).log; log[i].from <= log[i].to <= log[j].from <= log[j].to
  {
    ForwardIffLaminar(fs);
    PeriodsInOrder(fs);
    SortedPeriods(Build(fs).log, i, j);
  }

  // ----- Every instant belongs to the innermost active frame -----

  predicate Active(fs: seq<Frame>, f: nat, t: nat)
    requires f < |fs|
  {
    fs[f].start <= t < fs[f].end
  }

  predicate Covers(p: Period, t: nat) {
    p.from <= t < p.to
  }

  ghost predicate Covered(ps: seq<Period>, t: nat) {
    exists i: nat :: i < |ps| && Covers(ps[i], t)
  }

  ghost predicate Uncut(fs: seq<Frame>, kids: seq<nat>, t: nat)
    requires Within(fs, kids)
  {
    forall i: nat :: i < |kids| ==> !Active(fs, kids[i], t)
  }

  lemma CoveredAppend(ps: seq<Period>, p: Period, t: nat)
    ensures Covered(ps + [p], t) <==> Covered(ps, t) || Covers(p, t)
  {
    var qs := ps + [p];
    assert forall i: nat :: i < |ps| ==> qs[i] == ps[i];
    assert qs[|ps|] == p;
    if Covered(ps, t) {
      var i: nat :| i < |ps| && Covers(ps[i], t);
      assert Covers(qs[i], t);
    }
  }

  lemma UncutAppend(fs: seq<Frame>, kids: seq<nat>, t: nat)
    requires Within(fs, kids) && kids != []
    ensures var m := |kids| - 1; Uncut(fs, kids, t) <==> Uncut(fs, kids[..m], t) && !Active(fs, kids[m], t)
  {
    var m := |kids| - 1;
    assert forall i: nat :: i < m ==> kids[..m][i] == kids[i];
    if Uncut(fs, kids[..m], t) && !Active(fs, kids[m], t) {
      forall i: nat | i < |kids| ensures !Active(fs, kids[i], t) {
        if i < m {
          assert !Active(fs, kids[..m][i], t);
        }
      }
    }
  }

  lemma {:induction false} BeforeCovers(fs: seq<Frame>, f: nat, kids: seq<nat>, t: nat)
    requires Intervals(fs) && f < |fs| && Within(fs, kids) && Separated(fs, f, kids)
    ensures fs[f].start <= Cursor(fs, f, kids)
    ensures Covered(Before(fs, f, kids), t) <==> fs[f].start <= t < Cursor(fs, f, kids) && Uncut(fs, kids, t)
  {
    if kids != [] {
      var m := |kids| - 1;
      BeforeCovers(fs, f, kids[..m], t);
      CoveredAppend(Before(fs, f, kids[..m]), Period(f, Cursor(fs, f, kids[..m]), fs[kids[m]].start, m), t);
      UncutAppend(fs, kids, t);
      CursorBeforeKid(fs, f, kids);
      if t >= Cursor(fs, f, kids[..m]) {
        UncutAfter(fs, f, kids[..m], t);
      }
    }
  }

  lemma CursorBeforeKid(fs: seq<Frame>, f: nat, kids: seq<nat>)
    requires f < |fs| && Within(fs, kids) && Separated(fs, f, kids) && kids != []
    ensures var m := |kids| - 1; Cursor(fs, f, kids[..m]) <= fs[kids[m]].start
  {
  }

  /** Behind the last child no child is active. */
  lemma UncutAfter(fs: seq<Frame>, f: nat, kids: seq<nat>, t: nat)
    requires Intervals(fs) && f < |fs| && Within(fs, kids) && Separated(fs, f, kids) && Cursor(fs, f, kids) <= t
    ensures Uncut(fs, kids, t)
  {
    var m := |kids| - 1;
    forall i: nat | i < |kids| ensures !Active(fs, kids[i], t) {
      assert i < m ==> fs[kids[i]].end < fs[kids[m]].start;
    }
  }

  lemma ExclusiveCovers(fs: seq<Frame>, f: nat, kids: seq<nat>, t: nat)
    requires Intervals(fs) && f < |fs| && Within(fs, kids) && Separated(fs, f, kids) && Cursor(fs, f, kids) <= fs[f].end
    ensures Covered(Exclusive(fs, f, kids), t) <==> Active(fs, f, t) && Uncut(fs, kids, t)
  {
    BeforeCovers(fs, f, kids, t);
    CoveredAppend(Before(fs, f, kids), Period(f, Cursor(fs, f, kids), fs[f].end, |kids|), t);
    if t >= Cursor(fs, f, kids) {
      UncutAfter(fs, f, kids, t);
    }
  }

  /** For laminar frames the periods of a frame cover exactly its half-open interval
      without those of its children. */
  lemma PeriodsCover(fs: seq<Frame>, f: nat, t: nat)
    requires Sorted(fs) && Intervals(fs) && Laminar(fs) && f < |fs|
    ensures var kids := Kids(Build(fs).parents, f);
      Within(fs, kids) && (Covered(Of(Build(fs).log, f), t) <==> Active(fs, f, t) && Uncut(fs, kids, t))
  {
    hide Build; hide Separated; hide Exclusive;
    var kids := Kids(Build(fs).parents, f);
    PeriodsAreExclusive(fs, f);
    KidsSeparated(fs, f);
    FrameForward(fs, f);
    ForwardIffLaminar(fs);
    ForwardIffEachFrame(fs);
    CursorTells(fs, f, kids);
    ExclusiveCovers(fs, f, kids, t);
  }

  /** If a later frame is active too, so is a child. */
  lemma {:induction false} ActiveKid(fs: seq<Frame>, f: nat, g: nat, t: nat)
    requires Sorted(fs) && Intervals(fs) && Laminar(fs) && f < g < |fs| && Active(fs, f, t) && Active(fs, g, t)
    ensures exists c: nat :: c < |fs| && Build(fs).parents[c] == Some(f) && Active(fs, c, t)
    decreases g
  {
    hide Build;
    ParentIsInnermost(fs, g);
    assert f in Enclosing(fs, g);
    var p := Build(fs).parents[g].value;
    if p != f {
      assert Encloses(fs, f, p) && Active(fs, p, t);
      ActiveKid(fs, f, p, t);
    }
  }

  /** The frame with the latest start among those active at a time. */
  ghost predicate InnermostActive(fs: seq<Frame>, f: nat, t: nat) {
    f < |fs| && Active(fs, f, t) && forall g: nat :: f < g < |fs| ==> !Active(fs, g, t)
  }

  lemma UncutIffInnermost(fs: seq<Frame>, f: nat, t: nat)
    requires Sorted(fs) && Intervals(fs) && Laminar(fs) && f < |fs| && Active(fs, f, t)
    ensures var kids := Kids(Build(fs).parents, f);
      Within(fs, kids) && (Uncut(fs, kids, t) <==> InnermostActive(fs, f, t))
  {
    hide Build;
    var parents := Build(fs).parents;
    var kids := Kids(parents, f);
    KidsWithin(fs, parents, f);
    KidsAre(parents, f);
    KidsAfter(fs, f);
    if Uncut(fs, kids, t) {
      forall g: nat | f < g < |fs| ensures !Active(fs, g, t) {
        if Active(fs, g, t) {
          ActiveKid(fs, f, g, t);
        }
      }
    }
  }

  /** For laminar frames every period is spent in the innermost active frame, and every
      instant at which a frame is active lies in exactly one period. */
  lemma InstantsBelongToInnermost(fs: seq<Frame>, t: nat)
    requires Sorted(fs) && Intervals(fs) && Laminar(fs)
    ensures forall i: nat :: i < |Build(fs).log| && Covers(Build(fs).log[i], t) ==>
      InnermostActive(fs, Build(fs).log[i].frame, t)
    ensures forall f: nat :: InnermostActive(fs, f, t) ==> Covered(Of(Build(fs).log, f), t)
    ensures forall i: nat, j: nat :: i < j < |Build(fs).log| && Covers(Build(fs).log[i], t) ==>
      !Covers(Build(fs).log[j], t)
  {
    hide Build;
    var log := Build(fs).log;
    forall i: nat | i < |log| && Covers(log[i], t) ensures InnermostActive(fs, log[i].frame, t) {
      PeriodIsInnermost(fs, i, t);
    }
    forall f: nat | InnermostActive(fs, f, t) ensures Covered(Of(log, f), t) {
      PeriodsCover(fs, f, t);
      UncutIffInnermost(fs, f, t);
    }
    forall i: nat, j: nat | i < j < |log| && Covers(log[i], t) ensures !Covers(log[j], t) {
      PeriodArrayIsSorted(fs, i, j);
    }
  }

  lemma PeriodIsInnermost(fs: seq<Frame>, i: nat, t: nat)
    requires Sorted(fs) && Intervals(fs) && Laminar(fs) && i < |Build(fs).log| && Covers(Build(fs).log[i], t)
    ensures InnermostActive(fs, Build(fs).log[i].frame, t)
  {
    hide Build;
    var log := Build(fs).log;
    var f := log[i].frame;
    LogFrames(fs, i);
    OfIs(log, f);
    assert log[i] in Of(log, f);
    assert Covered(Of(log, f), t);
    PeriodsCover(fs, f, t);
    UncutIffInnermost(fs, f, t);
  }
}
