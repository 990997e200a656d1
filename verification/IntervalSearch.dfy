/** The binary searches for the first and the last array element that overlaps with a
    query, and the loop over all overlapping elements. */
module IntervalSearch {
  import opened Wrappers
  import opened Digraph
  import opened CallGraph
  import opened CallGraphPeriods

  datatype Interval = Interval(start: nat, end: nat)

  /** am_bsearch_safe_center_idx: the middle without a sum that could overflow. */
  function SafeCenter(a: nat, b: nat): (m: nat)
    ensures m == (a + b) / 2
  {
    a / 2 + b / 2 + (a % 2 + b % 2) / 2
  }

  /** am_interval_overlap_cmp: whether an interval ends before the query starts, or
      starts after it ends, or neither. */
  function OverlapCmp(a: Interval, q: Interval): int {
    if a.end < q.start then -1 else if a.start > q.end then 1 else 0
  }

  /** Both intervals contain a common point, if they contain any. */
  predicate Overlaps(a: Interval, q: Interval) {
    a.start <= q.end && q.start <= a.end
  }

  ghost predicate StartsAndEndsSorted(a: seq<Interval>) {
    forall i: nat, j: nat :: i < j < |a| ==> a[i].start <= a[j].start && a[i].end <= a[j].end
  }

  // ----- The searches as functions -----

  /** The first search on the positions from `l` to `r`, with the best match so far. */
  function FirstFrom(a: seq<Interval>, q: Interval, l: nat, r: nat, best: Option<nat>): Option<nat>
    requires r < |a|
    decreases r + 1 - l
  {
    if l > r then best
    else
      var m := SafeCenter(l, r);
      var c := OverlapCmp(a[m], q);
      if c < 0 then if m == |a| - 1 then best else FirstFrom(a, q, m + 1, r, best)
      else
        var best' := if c == 0 then Some(m) else best;
        if m == 0 then best' else FirstFrom(a, q, l, m - 1, best')
  }

  function LastFrom(a: seq<Interval>, q: Interval, l: nat, r: nat, best: Option<nat>): Option<nat>
    requires r < |a|
    decreases r + 1 - l
  {
    if l > r then best
    else
      var m := SafeCenter(l, r);
      var c := OverlapCmp(a[m], q);
      if c > 0 then if m == 0 then best else LastFrom(a, q, l, m - 1, best)
      else
        var best' := if c == 0 then Some(m) else best;
        if m == |a| - 1 then best' else LastFrom(a, q, m + 1, r, best')
  }

  function First(a: seq<Interval>, q: Interval): Option<nat> {
    if a == [] then None else FirstFrom(a, q, 0, |a| - 1, None)
  }

  function Last(a: seq<Interval>, q: Interval): Option<nat> {
    if a == [] then None else LastFrom(a, q, 0, |a| - 1, None)
  }

  // ----- What they find -----

  ghost predicate IsFirst(a: seq<Interval>, q: Interval, r: Option<nat>) {
    match r
    case None => forall i: nat :: i < |a| ==> !Overlaps(a[i], q)
    case Some(k) => k < |a| && Overlaps(a[k], q) && forall i: nat :: i < k ==> !Overlaps(a[i], q)
  }

  ghost predicate IsLast(a: seq<Interval>, q: Interval, r: Option<nat>) {
    match r
    case None => forall i: nat :: i < |a| ==> !Overlaps(a[i], q)
    case Some(k) => k < |a| && Overlaps(a[k], q) && forall i: nat :: k < i < |a| ==> !Overlaps(a[i], q)
  }

  ghost predicate NoneIn(a: seq<Interval>, q: Interval, lo: nat, hi: nat) {
    forall i: nat :: lo <= i < hi && i < |a| ==> !Overlaps(a[i], q)
  }

  // ----- When the first search is right -----

  ghost predicate StartsSorted(a: seq<Interval>) {
    forall i: nat, j: nat :: i < j < |a| ==> a[i].start <= a[j].start
  }

  ghost predicate Proper(a: seq<Interval>) {
    forall i: nat :: i < |a| ==> a[i].start <= a[i].end
  }

  function Max(x: int, y: int): int {
    if x < y then y else x
  }

  /** The condition for the search on the positions from `l` to `h - 1`, as a walk over the
      positions it can look at: whenever it gives up everything before the middle, what
      it gives up ends no later than the middle or than something given up before, which
      ended at `b`. */
  predicate Dominated(a: seq<Interval>, l: nat, h: nat, b: int)
    requires h <= |a|
    decreases h - l
  {
    l >= h ||
    (var m := SafeCenter(l, h - 1);
     && (forall i: nat | l <= i < m :: a[i].end <= Max(b, a[m].end))
     && Dominated(a, l, m, b) && Dominated(a, m + 1, h, Max(b, a[m].end)))
  }

  lemma DominatedStep(a: seq<Interval>, l: nat, h: nat, b: int)
    requires l < h <= |a| && Dominated(a, l, h, b)
    ensures var m := SafeCenter(l, h - 1);
      && l <= m < h && (forall i: nat :: l <= i < m ==> a[i].end <= Max(b, a[m].end))
      && Dominated(a, l, m, b) && Dominated(a, m + 1, h, Max(b, a[m].end))
  {
  }

  lemma NotDominated(a: seq<Interval>, l: nat, h: nat, b: int)
    requires h <= |a| && !Dominated(a, l, h, b)
    ensures l < h
    ensures var m := SafeCenter(l, h - 1);
      && l <= m < h
      && ((exists i: nat :: l <= i < m && a[i].end > Max(b, a[m].end))
          || (l < m && !Dominated(a, l, m, b)) || !Dominated(a, m + 1, h, Max(b, a[m].end)))
  {
  }

  /** One comparison of the first search. */
  lemma FirstStep(a: seq<Interval>, q: Interval, l: nat, r: nat, best: Option<nat>)
    requires r < |a|
    ensures l > r ==> FirstFrom(a, q, l, r, best) == best
    ensures l <= r ==> var m := SafeCenter(l, r); var c := OverlapCmp(a[m], q);
      && (c < 0 && m == |a| - 1 ==> FirstFrom(a, q, l, r, best) == best)
      && (c < 0 && m < |a| - 1 ==> FirstFrom(a, q, l, r, best) == FirstFrom(a, q, m + 1, r, best))
      && (c >= 0 && m == 0 ==> FirstFrom(a, q, l, r, best) == if c == 0 then Some(m) else best)
      && (c >= 0 && m > 0 ==>
           FirstFrom(a, q, l, r, best) == FirstFrom(a, q, l, m - 1, if c == 0 then Some(m) else best))
  {
  }

  /** If an element starts after the query ends, so do those after it. */
  lemma DiscardAfter(a: seq<Interval>, q: Interval, m: nat)
    requires StartsSorted(a) && m < |a| && a[m].start > q.end
    ensures NoneIn(a, q, m, |a|)
  {
  }

  /** `best` is the first match behind position `r`. */
  ghost predicate FirstBehind(a: seq<Interval>, q: Interval, r: nat, best: Option<nat>) {
    match best
    case None => NoneIn(a, q, r + 1, |a|)
    case Some(k) => r < k < |a| && Overlaps(a[k], q) && NoneIn(a, q, r + 1, k)
  }

  lemma FirstEnds(a: seq<Interval>, q: Interval, l: nat, r: nat, best: Option<nat>)
    requires l == r + 1 && NoneIn(a, q, 0, l) && FirstBehind(a, q, r, best)
    ensures IsFirst(a, q, best)
  {
  }

  lemma DominatedRight(a: seq<Interval>, q: Interval, l: nat, m: nat, r: nat, b: int, best: Option<nat>)
    requires l <= m <= r < |a| && a[m].end < q.start && b < q.start && NoneIn(a, q, 0, l)
    requires (forall i: nat :: l <= i < m ==> a[i].end <= Max(b, a[m].end)) && FirstBehind(a, q, r, best)
    ensures NoneIn(a, q, 0, m + 1) && (m == |a| - 1 ==> IsFirst(a, q, best))
  {
  }

  lemma DominatedLeft(a: seq<Interval>, q: Interval, l: nat, m: nat, r: nat, best: Option<nat>)
    requires StartsSorted(a) && l <= m <= r < |a| && OverlapCmp(a[m], q) >= 0 && FirstBehind(a, q, r, best)
    ensures var best' := if OverlapCmp(a[m], q) == 0 then Some(m) else best;
      (m > 0 ==> FirstBehind(a, q, m - 1, best')) && (m == 0 ==> IsFirst(a, q, best'))
  {
    if OverlapCmp(a[m], q) > 0 {
      DiscardAfter(a, q, m);
      assert best == None;
    }
  }

  lemma {:induction false} DominatedFinds(a: seq<Interval>, q: Interval, l: nat, r: nat, b: int, best: Option<nat>)
    requires StartsSorted(a) && r < |a| && l <= r + 1 && Dominated(a, l, r + 1, b) && b < q.start
    requires NoneIn(a, q, 0, l) && FirstBehind(a, q, r, best)
    ensures IsFirst(a, q, FirstFrom(a, q, l, r, best))
    decreases r + 1 - l
  {
    hide FirstFrom; hide Dominated; hide NoneIn; hide FirstBehind; hide IsFirst; hide StartsSorted; hide SafeCenter;
    FirstStep(a, q, l, r, best);
    if l <= r { DominatedStep(a, l, r + 1, b); }
    if l > r {
      FirstEnds(a, q, l, r, best);
    } else {
      var m := SafeCenter(l, r);
      if OverlapCmp(a[m], q) < 0 {
        DominatedRight(a, q, l, m, r, b, best);
        if m < |a| - 1 {
          DominatedFinds(a, q, m + 1, r, Max(b, a[m].end), best);
        }
      } else {
        DominatedLeft(a, q, l, m, r, best);
        if m > 0 {
          DominatedFinds(a, q, l, m - 1, b, if OverlapCmp(a[m], q) == 0 then Some(m) else best);
        }
      }
    }
  }

  lemma {:induction false} FirstFromWithin(a: seq<Interval>, q: Interval, l: nat, r: nat, best: Option<nat>)
    requires r < |a|
    ensures var f := FirstFrom(a, q, l, r, best);
      f == best || (f.Some? && l <= f.value <= r && Overlaps(a[f.value], q))
    decreases r + 1 - l
  {
    if l <= r {
      var m := SafeCenter(l, r);
      var c := OverlapCmp(a[m], q);
      if c < 0 {
        if m < |a| - 1 { FirstFromWithin(a, q, m + 1, r, best); }
      } else if m > 0 {
        FirstFromWithin(a, q, l, m - 1, if c == 0 then Some(m) else best);
      }
    }
  }

  function Point(t: nat): Interval {
    Interval(t, t)
  }

  /** Whatever has been found behind position `r`, the search on the positions from `l` to
      `r` ends behind position `i`. */
  ghost predicate EndsBehind(a: seq<Interval>, q: Interval, l: nat, r: nat, i: nat)
    requires r < |a|
  {
    forall best: Option<nat> :: best == None || best.value > r ==>
      FirstFrom(a, q, l, r, best) == None || FirstFrom(a, q, l, r, best).value > i
  }

  lemma GivesUpBefore(a: seq<Interval>, q: Interval, l: nat, r: nat, i: nat)
    requires l <= i < SafeCenter(l, r) <= r < |a| && a[SafeCenter(l, r)].end < q.start
    ensures EndsBehind(a, q, l, r, i)
  {
    var m := SafeCenter(l, r);
    forall best: Option<nat> | best == None || best.value > r
      ensures FirstFrom(a, q, l, r, best) == None || FirstFrom(a, q, l, r, best).value > i
    {
      if m < |a| - 1 { FirstFromWithin(a, q, m + 1, r, best); }
    }
  }

  lemma EndsBehindLeft(a: seq<Interval>, q: Interval, l: nat, r: nat, i: nat)
    requires l <= i < SafeCenter(l, r) <= r < |a| && a[SafeCenter(l, r)].end >= q.start
    requires EndsBehind(a, q, l, SafeCenter(l, r) - 1, i)
    ensures EndsBehind(a, q, l, r, i)
  {
    var m := SafeCenter(l, r);
    forall best: Option<nat> | best == None || best.value > r
      ensures FirstFrom(a, q, l, r, best) == None || FirstFrom(a, q, l, r, best).value > i
    {
      var best' := if OverlapCmp(a[m], q) == 0 then Some(m) else best;
      assert FirstFrom(a, q, l, r, best) == FirstFrom(a, q, l, m - 1, best');
    }
  }

  lemma EndsBehindRight(a: seq<Interval>, q: Interval, l: nat, r: nat, i: nat)
    requires l <= SafeCenter(l, r) < r < |a| && a[SafeCenter(l, r)].end < q.start
    requires EndsBehind(a, q, SafeCenter(l, r) + 1, r, i)
    ensures EndsBehind(a, q, l, r, i)
  {
    var m := SafeCenter(l, r);
    forall best: Option<nat> | best == None || best.value > r
      ensures FirstFrom(a, q, l, r, best) == None || FirstFrom(a, q, l, r, best).value > i
    {
      assert FirstFrom(a, q, l, r, best) == FirstFrom(a, q, m + 1, r, best);
    }
  }

  /** Where the condition fails, the end of some interval is a query for which the search
      does not get to that interval. */
  lemma {:induction false} UndominatedMisses(a: seq<Interval>, l: nat, r: nat, b: int) returns (i: nat)
    requires r < |a| && l <= r + 1 && !Dominated(a, l, r + 1, b)
    ensures l <= i <= r && a[i].end > b && EndsBehind(a, Point(a[i].end), l, r, i)
    decreases r + 1 - l
  {
    hide FirstFrom; hide EndsBehind; hide Dominated; hide SafeCenter;
    var m := SafeCenter(l, r);
    NotDominated(a, l, r + 1, b);
    if j: nat :| l <= j < m && a[j].end > Max(b, a[m].end) {
      i := j;
      GivesUpBefore(a, Point(a[i].end), l, r, i);
    } else if l < m && !Dominated(a, l, m, b) {
      i := UndominatedMisses(a, l, m - 1, b);
      EndsBehindLeft(a, Point(a[i].end), l, r, i);
    } else {
      i := UndominatedMisses(a, m + 1, r, Max(b, a[m].end));
      EndsBehindRight(a, Point(a[i].end), l, r, i);
    }
  }

  /** For intervals with ascending starts the first search is right for every query if and
      only if the condition holds. */
  lemma FirstIffDominated(a: seq<Interval>)
    requires StartsSorted(a) && Proper(a)
    ensures (forall q: Interval :: IsFirst(a, q, First(a, q))) <==> Dominated(a, 0, |a|, -1)
    ensures !Dominated(a, 0, |a|, -1) ==> exists q: Interval :: q.start <= q.end && !IsFirst(a, q, First(a, q))
  {
    assert a == [] ==> Dominated(a, 0, |a|, -1);
    hide Dominated; hide FirstFrom;
    if a != [] {
      if Dominated(a, 0, |a|, -1) {
        forall q: Interval ensures IsFirst(a, q, First(a, q)) {
          DominatedFinds(a, q, 0, |a| - 1, -1, None);
        }
      } else {
        var i := UndominatedMisses(a, 0, |a| - 1, -1);
        var q := Point(a[i].end);
        assert Overlaps(a[i], q);
        assert !IsFirst(a, q, First(a, q));
      }
    }
  }

  // ----- When the last search is right -----

  /** Point `t` lies within an interval before `m`, behind the end of interval `m`, and
      before the start of interval `h`. */
  ghost predicate Exposed(a: seq<Interval>, l: nat, m: nat, h: nat, t: nat)
    requires m < h <= |a|
  {
    a[m].end < t && (h < |a| ==> t < a[h].start) && exists i: nat :: l <= i < m && t <= a[i].end
  }

  ghost predicate Covered(a: seq<Interval>, l: nat, h: nat, t: nat)
    requires h <= |a|
  {
    exists j: nat :: l <= j < h && a[j].start <= t <= a[j].end
  }

  /** The condition for the search on the positions from `l` to `h - 1`: whenever it gives
      up everything before the middle, each point that only what it gives up could cover
      is covered by an interval behind the middle. */
  ghost predicate Shielded(a: seq<Interval>, l: nat, h: nat)
    requires h <= |a|
    decreases h - l
  {
    l >= h ||
    (var m := SafeCenter(l, h - 1);
     && (forall t: nat :: Exposed(a, l, m, h, t) ==> Covered(a, m + 1, h, t))
     && Shielded(a, l, m) && Shielded(a, m + 1, h))
  }

  lemma ShieldedStep(a: seq<Interval>, l: nat, h: nat)
    requires l < h <= |a| && Shielded(a, l, h)
    ensures var m := SafeCenter(l, h - 1);
      && l <= m < h && (forall t: nat :: Exposed(a, l, m, h, t) ==> Covered(a, m + 1, h, t))
      && Shielded(a, l, m) && Shielded(a, m + 1, h)
  {
  }

  /** One comparison of the last search. */
  lemma LastStep(a: seq<Interval>, q: Interval, l: nat, r: nat, best: Option<nat>)
    requires r < |a|
    ensures l > r ==> LastFrom(a, q, l, r, best) == best
    ensures l <= r ==> var m := SafeCenter(l, r); var c := OverlapCmp(a[m], q);
      && (c > 0 && m == 0 ==> LastFrom(a, q, l, r, best) == best)
      && (c > 0 && m > 0 ==> LastFrom(a, q, l, r, best) == LastFrom(a, q, l, m - 1, best))
      && (c <= 0 && m == |a| - 1 ==> LastFrom(a, q, l, r, best) == if c == 0 then Some(m) else best)
      && (c <= 0 && m < |a| - 1 ==>
           LastFrom(a, q, l, r, best) == LastFrom(a, q, m + 1, r, if c == 0 then Some(m) else best))
  {
  }

  /** `best` is the last match before position `l`. */
  ghost predicate LastBefore(a: seq<Interval>, q: Interval, l: nat, best: Option<nat>) {
    match best
    case None => NoneIn(a, q, 0, l)
    case Some(k) => k < l && k < |a| && Overlaps(a[k], q) && NoneIn(a, q, k + 1, l)
  }

  ghost predicate SomeIn(a: seq<Interval>, q: Interval, l: nat, h: nat) {
    exists j: nat :: l <= j < h && j < |a| && Overlaps(a[j], q)
  }

  lemma NothingExposed(a: seq<Interval>, q: Interval, l: nat, m: nat, h: nat)
    requires m < h <= |a| && a[m].end < q.start <= q.end && (h < |a| ==> a[h].start > q.end)
    requires forall t: nat :: Exposed(a, l, m, h, t) ==> Covered(a, m + 1, h, t)
    requires !SomeIn(a, q, m + 1, h)
    ensures NoneIn(a, q, l, h)
  {
    assert !Covered(a, m + 1, h, q.start) by {
      forall j: nat | m + 1 <= j < h ensures !(a[j].start <= q.start <= a[j].end) {
        assert !Overlaps(a[j], q);
      }
    }
    assert !Exposed(a, l, m, h, q.start);
    forall i: nat | l <= i < h && i < |a| ensures !Overlaps(a[i], q) {
    }
  }

  lemma ShieldLeft(a: seq<Interval>, q: Interval, l: nat, m: nat, h: nat, best: Option<nat>)
    requires l <= m < h <= |a| && NoneIn(a, q, m, |a|) && (LastBefore(a, q, l, best) || SomeIn(a, q, l, h))
    ensures LastBefore(a, q, l, best) || SomeIn(a, q, l, m)
    ensures m == 0 ==> IsLast(a, q, best)
  {
  }

  lemma ShieldRight(a: seq<Interval>, q: Interval, l: nat, m: nat, h: nat, best: Option<nat>)
    requires l <= m < h <= |a| && OverlapCmp(a[m], q) <= 0 && q.start <= q.end && (h < |a| ==> a[h].start > q.end)
    requires forall t: nat :: Exposed(a, l, m, h, t) ==> Covered(a, m + 1, h, t)
    requires LastBefore(a, q, l, best) || SomeIn(a, q, l, h)
    ensures var best' := if OverlapCmp(a[m], q) == 0 then Some(m) else best;
      && (LastBefore(a, q, m + 1, best') || SomeIn(a, q, m + 1, h))
      && (m == |a| - 1 ==> IsLast(a, q, best'))
  {
    if OverlapCmp(a[m], q) < 0 && !SomeIn(a, q, m + 1, h) {
      NothingExposed(a, q, l, m, h);
    }
  }

  lemma LastEnds(a: seq<Interval>, q: Interval, l: nat, best: Option<nat>)
    requires (LastBefore(a, q, l, best) || SomeIn(a, q, l, l)) && NoneIn(a, q, l, |a|)
    ensures IsLast(a, q, best)
  {
  }

  lemma {:induction false} ShieldedFinds(a: seq<Interval>, q: Interval, l: nat, r: nat, best: Option<nat>)
    requires StartsSorted(a) && Proper(a) && q.start <= q.end
    requires r < |a| && l <= r + 1 && Shielded(a, l, r + 1) && NoneIn(a, q, r + 1, |a|)
    requires r + 1 < |a| ==> a[r + 1].start > q.end
    requires LastBefore(a, q, l, best) || SomeIn(a, q, l, r + 1)
    ensures IsLast(a, q, LastFrom(a, q, l, r, best))
    decreases r + 1 - l
  {
    hide LastFrom; hide Shielded; hide NoneIn; hide LastBefore; hide SomeIn; hide IsLast; hide StartsSorted;
    hide Proper;
    hide SafeCenter;
    LastStep(a, q, l, r, best);
    if l <= r { ShieldedStep(a, l, r + 1); }
    if l > r {
      LastEnds(a, q, l, best);
    } else {
      var m := SafeCenter(l, r);
      if OverlapCmp(a[m], q) > 0 {
        DiscardAfter(a, q, m);
        ShieldLeft(a, q, l, m, r + 1, best);
        if m > 0 {
          ShieldedFinds(a, q, l, m - 1, best);
        }
      } else {
        ShieldRight(a, q, l, m, r + 1, best);
        if m < |a| - 1 {
          ShieldedFinds(a, q, m + 1, r, if OverlapCmp(a[m], q) == 0 then Some(m) else best);
        }
      }
    }
  }

  lemma {:induction false} LastFromWithin(a: seq<Interval>, q: Interval, l: nat, r: nat, best: Option<nat>)
    requires r < |a|
    ensures var f := LastFrom(a, q, l, r, best);
      f == best || (f.Some? && l <= f.value <= r && Overlaps(a[f.value], q))
    decreases r + 1 - l
  {
    if l <= r {
      var m := SafeCenter(l, r);
      var c := OverlapCmp(a[m], q);
      if c > 0 {
        if m > 0 { LastFromWithin(a, q, l, m - 1, best); }
      } else if m < |a| - 1 {
        LastFromWithin(a, q, m + 1, r, if c == 0 then Some(m) else best);
      }
    }
  }

  /** Whatever has been found before position `l`, the search on the positions from `l` to
      `r` ends before position `i`. */
  ghost predicate EndsBefore(a: seq<Interval>, q: Interval, l: nat, r: nat, i: nat)
    requires r < |a|
  {
    forall best: Option<nat> :: best == None || best.value < l ==>
      LastFrom(a, q, l, r, best) == None || LastFrom(a, q, l, r, best).value < i
  }

  lemma FindsNothingBehind(a: seq<Interval>, t: nat, l: nat, r: nat, i: nat)
    requires l <= i < SafeCenter(l, r) <= r < |a| && a[SafeCenter(l, r)].end < t
    requires !Covered(a, SafeCenter(l, r) + 1, r + 1, t)
    ensures EndsBefore(a, Point(t), l, r, i)
  {
    var m, q := SafeCenter(l, r), Point(t);
    forall best: Option<nat> | best == None || best.value < l
      ensures LastFrom(a, q, l, r, best) == None || LastFrom(a, q, l, r, best).value < i
    {
      if m < |a| - 1 { LastFromWithin(a, q, m + 1, r, best); }
    }
  }

  lemma EndsBeforeLeft(a: seq<Interval>, q: Interval, l: nat, r: nat, i: nat)
    requires l < SafeCenter(l, r) <= r < |a| && OverlapCmp(a[SafeCenter(l, r)], q) > 0
    requires EndsBefore(a, q, l, SafeCenter(l, r) - 1, i)
    ensures EndsBefore(a, q, l, r, i)
  {
    var m := SafeCenter(l, r);
    forall best: Option<nat> | best == None || best.value < l
      ensures LastFrom(a, q, l, r, best) == None || LastFrom(a, q, l, r, best).value < i
    {
      assert LastFrom(a, q, l, r, best) == LastFrom(a, q, l, m - 1, best);
    }
  }

  lemma EndsBeforeRight(a: seq<Interval>, q: Interval, l: nat, r: nat, i: nat)
    requires l <= SafeCenter(l, r) < r < |a| && OverlapCmp(a[SafeCenter(l, r)], q) <= 0
    requires EndsBefore(a, q, SafeCenter(l, r) + 1, r, i)
    ensures EndsBefore(a, q, l, r, i)
  {
    hide LastFrom; hide OverlapCmp; hide SafeCenter;
    var m := SafeCenter(l, r);
    forall best: Option<nat> | best == None || best.value < l
      ensures LastFrom(a, q, l, r, best) == None || LastFrom(a, q, l, r, best).value < i
    {
      LastStep(a, q, l, r, best);
    }
  }

  ghost predicate Unshielded(a: seq<Interval>, l: nat, m: nat, h: nat, t: nat)
    requires m < h <= |a|
  {
    Exposed(a, l, m, h, t) && !Covered(a, m + 1, h, t)
  }

  lemma NotShielded(a: seq<Interval>, l: nat, h: nat)
    requires h <= |a| && !Shielded(a, l, h)
    ensures l < h
    ensures var m := SafeCenter(l, h - 1);
      && l <= m < h
      && ((exists t: nat :: Unshielded(a, l, m, h, t)) || (l < m && !Shielded(a, l, m)) || !Shielded(a, m + 1, h))
  {
    var m := SafeCenter(l, h - 1);
    assert forall t: nat :: Unshielded(a, l, m, h, t) <==> Exposed(a, l, m, h, t) && !Covered(a, m + 1, h, t);
  }

  /** Where the condition fails, some point is a query that overlaps with an interval
      behind what the search returns. */
  lemma {:induction false} UnshieldedMisses(a: seq<Interval>, l: nat, r: nat) returns (t: nat, i: nat)
    requires StartsSorted(a) && Proper(a) && r < |a| && l <= r + 1 && !Shielded(a, l, r + 1)
    ensures l <= i <= r && a[i].start <= t <= a[i].end && (r + 1 < |a| ==> t < a[r + 1].start)
    ensures EndsBefore(a, Point(t), l, r, i)
    decreases r + 1 - l
  {
    hide LastFrom; hide EndsBefore; hide Covered; hide Shielded; hide SafeCenter;
    var m, h := SafeCenter(l, r), r + 1;
    NotShielded(a, l, h);
    if x: nat :| Unshielded(a, l, m, h, x) {
      t := x;
      i :| l <= i < m && t <= a[i].end;
      FindsNothingBehind(a, t, l, r, i);
    } else if l < m && !Shielded(a, l, m) {
      t, i := UnshieldedMisses(a, l, m - 1);
      EndsBeforeLeft(a, Point(t), l, r, i);
    } else {
      t, i := UnshieldedMisses(a, m + 1, r);
      EndsBeforeRight(a, Point(t), l, r, i);
    }
  }

  /** For intervals with ascending starts the last search is right for every query if and
      only if the condition holds. */
  lemma LastIffShielded(a: seq<Interval>)
    requires StartsSorted(a) && Proper(a)
    ensures (forall q: Interval :: q.start <= q.end ==> IsLast(a, q, Last(a, q))) <==> Shielded(a, 0, |a|)
  {
    if a != [] {
      if Shielded(a, 0, |a|) {
        forall q: Interval | q.start <= q.end ensures IsLast(a, q, Last(a, q)) {
          ShieldedFinds(a, q, 0, |a| - 1, None);
        }
      } else {
        var t, i := UnshieldedMisses(a, 0, |a| - 1);
        var q := Point(t);
        assert Overlaps(a[i], q);
        assert !IsLast(a, q, Last(a, q));
      }
    }
  }

  // ----- Ends that ascend, too -----

  lemma {:induction false} SortedIsDominated(a: seq<Interval>, l: nat, h: nat, b: int)
    requires StartsAndEndsSorted(a) && h <= |a|
    ensures Dominated(a, l, h, b)
    decreases h - l
  {
    if l < h {
      var m := SafeCenter(l, h - 1);
      SortedIsDominated(a, l, m, b);
      SortedIsDominated(a, m + 1, h, Max(b, a[m].end));
    }
  }

  /** If one element ends before the query starts, so do those before it; if it starts
      after the query ends, so do those after it. */
  lemma Discard(a: seq<Interval>, q: Interval, m: nat)
    requires StartsAndEndsSorted(a) && m < |a|
    ensures OverlapCmp(a[m], q) < 0 ==> NoneIn(a, q, 0, m + 1)
    ensures OverlapCmp(a[m], q) > 0 ==> NoneIn(a, q, m, |a|)
  {
  }

  lemma {:induction false} LastFound(a: seq<Interval>, q: Interval, l: nat, r: nat, best: Option<nat>)
    requires StartsAndEndsSorted(a) && r < |a| && l <= r + 1 && NoneIn(a, q, r + 1, |a|)
    requires match best
      case None => NoneIn(a, q, 0, l)
      case Some(k) => k < l && k < |a| && Overlaps(a[k], q) && NoneIn(a, q, k + 1, l)
    ensures IsLast(a, q, LastFrom(a, q, l, r, best))
    decreases r + 1 - l
  {
    if l <= r {
      var m := SafeCenter(l, r);
      var c := OverlapCmp(a[m], q);
      Discard(a, q, m);
      hide StartsAndEndsSorted;
      if c > 0 {
        if m > 0 {
          LastFound(a, q, l, m - 1, best);
        }
      } else if m < |a| - 1 {
        LastFound(a, q, m + 1, r, if c == 0 then Some(m) else best);
      }
    }
  }

  /** If starts and ends ascend, the searches find the first and last overlapping
      elements, and everything between them overlaps too. */
  lemma SearchesFind(a: seq<Interval>, q: Interval)
    requires StartsAndEndsSorted(a)
    ensures IsFirst(a, q, First(a, q)) && IsLast(a, q, Last(a, q))
    ensures First(a, q).Some? <==> Last(a, q).Some?
    ensures First(a, q).Some? ==>
      forall i: nat :: i < |a| ==> (Overlaps(a[i], q) <==> First(a, q).value <= i <= Last(a, q).value)
  {
    if a != [] {
      hide FirstFrom; hide LastFrom; hide Dominated;
      SortedIsDominated(a, 0, |a|, -1);
      DominatedFinds(a, q, 0, |a| - 1, -1, None);
      LastFound(a, q, 0, |a| - 1, None);
    }
    AllBetweenOverlap(a, q);
  }

  lemma AllBetweenOverlap(a: seq<Interval>, q: Interval)
    requires StartsAndEndsSorted(a) && IsFirst(a, q, First(a, q)) && IsLast(a, q, Last(a, q))
    ensures First(a, q).Some? <==> Last(a, q).Some?
    ensures First(a, q).Some? ==>
      forall i: nat :: i < |a| ==> (Overlaps(a[i], q) <==> First(a, q).value <= i <= Last(a, q).value)
  {
    hide First; hide Last;
  }

  lemma {:induction false} NoneBehind(a: seq<Interval>, q: Interval, l: nat, r: nat)
    requires 1 <= l && r == |a| - 1 && forall i: nat :: l <= i < |a| ==> OverlapCmp(a[i], q) < 0
    ensures FirstFrom(a, q, l, r, None) == None
    decreases r + 1 - l
  {
    if l <= r && (l + r) / 2 < |a| - 1 {
      NoneBehind(a, q, (l + r) / 2 + 1, r);
    }
  }

  /** If the first interval outlasts all later ones, ends do not ascend: a query that
      only the first interval overlaps finds nothing. */
  lemma EnclosingIsMissed(a: seq<Interval>, q: Interval)
    requires |a| >= 3 && Overlaps(a[0], q) && forall i: nat :: 1 <= i < |a| ==> a[i].end < q.start
    ensures First(a, q) == None && !StartsAndEndsSorted(a)
  {
    var r: nat := |a| - 1;
    assert OverlapCmp(a[r / 2], q) < 0;
    if r / 2 < r {
      NoneBehind(a, q, r / 2 + 1, r);
    }
    assert a[0].end > a[1].end;
  }

  // ----- When the loop over overlapping elements is right -----

  /** The loop visits position `i`. */
  predicate Visited(a: seq<Interval>, q: Interval, i: nat) {
    First(a, q).Some? && Last(a, q).Some? && First(a, q).value <= i <= Last(a, q).value
  }

  /** The loop visits exactly the elements that overlap with the query. */
  ghost predicate VisitsOverlapping(a: seq<Interval>, q: Interval) {
    forall i: nat {:trigger Visited(a, q, i)} :: Visited(a, q, i) <==> i < |a| && Overlaps(a[i], q)
  }

  /** No interval ends before one that precedes it and before one that follows it. */
  ghost predicate NoValley(a: seq<Interval>) {
    forall i: nat, k: nat, j: nat :: i < k < j < |a| ==> a[k].end >= a[i].end || a[k].end >= a[j].end
  }

  lemma FoundOverlaps(a: seq<Interval>, q: Interval)
    ensures First(a, q).Some? ==> First(a, q).value < |a| && Overlaps(a[First(a, q).value], q)
    ensures Last(a, q).Some? ==> Last(a, q).value < |a| && Overlaps(a[Last(a, q).value], q)
  {
    if a != [] {
      FirstFromWithin(a, q, 0, |a| - 1, None);
      LastFromWithin(a, q, 0, |a| - 1, None);
    }
  }

  /** If the loop is right, so are both searches. */
  lemma VisitedMeansFound(a: seq<Interval>, q: Interval)
    requires VisitsOverlapping(a, q)
    ensures IsFirst(a, q, First(a, q)) && IsLast(a, q, Last(a, q))
  {
    FoundOverlaps(a, q);
    forall i: nat | i < |a| && Overlaps(a[i], q) ensures Visited(a, q, i) {
    }
  }

  /** If both searches are right, an element between their results that does not overlap
      ends in a valley. */
  lemma FoundMeansVisited(a: seq<Interval>, q: Interval)
    requires StartsSorted(a) && NoValley(a) && IsFirst(a, q, First(a, q)) && IsLast(a, q, Last(a, q))
    ensures VisitsOverlapping(a, q)
  {
    if First(a, q).Some? && Last(a, q).Some? {
      var f, l := First(a, q).value, Last(a, q).value;
      forall i: nat | f < i < l ensures Overlaps(a[i], q) {
        assert a[i].end >= a[f].end || a[i].end >= a[l].end;
        assert a[i].start <= a[l].start;
      }
    }
  }

  lemma ValleyIsVisited(a: seq<Interval>, i: nat, k: nat, j: nat) returns (q: Interval)
    requires StartsSorted(a) && Proper(a) && i < k < j < |a| && a[k].end < a[i].end && a[k].end < a[j].end
    ensures q.start <= q.end && !VisitsOverlapping(a, q)
  {
    q := Interval(a[k].end + 1, a[k].end + 1 + a[j].start);
    assert a[i].start <= a[k].start;
    assert Overlaps(a[i], q) && Overlaps(a[j], q) && !Overlaps(a[k], q);
    assert Visited(a, q, i) && Visited(a, q, j) ==> Visited(a, q, k);
  }

  /** For intervals with ascending starts the loop visits exactly the overlapping elements
      for every query if and only if both searches are right and ends have no valley. */
  lemma LoopIffSearchable(a: seq<Interval>)
    requires StartsSorted(a) && Proper(a)
    ensures (forall q: Interval :: q.start <= q.end ==> VisitsOverlapping(a, q)) <==>
      Dominated(a, 0, |a|, -1) && Shielded(a, 0, |a|) && NoValley(a)
  {
    FirstIffDominated(a);
    LastIffShielded(a);
    hide First; hide Last; hide Shielded; hide Dominated; hide VisitsOverlapping;
    if forall q: Interval :: q.start <= q.end ==> VisitsOverlapping(a, q) {
      forall q: Interval | q.start <= q.end ensures IsFirst(a, q, First(a, q)) && IsLast(a, q, Last(a, q)) {
        VisitedMeansFound(a, q);
      }
      forall i: nat, k: nat, j: nat | i < k < j < |a| ensures a[k].end >= a[i].end || a[k].end >= a[j].end {
        if a[k].end < a[i].end && a[k].end < a[j].end {
          var q := ValleyIsVisited(a, i, k, j);
        }
      }
    }
    if Dominated(a, 0, |a|, -1) && Shielded(a, 0, |a|) && NoValley(a) {
      forall q: Interval | q.start <= q.end ensures VisitsOverlapping(a, q) {
        FoundMeansVisited(a, q);
      }
    }
  }

  /** The periods of laminar frames are sorted as the search needs it, so that every
      period that overlaps with a query is found. */
  lemma PeriodsAreFound(fs: seq<Frame>)
    requires Sorted(fs) && Intervals(fs) && Laminar(fs)
    ensures var log := Build(fs).log;
      StartsAndEndsSorted(seq(|log|, i requires 0 <= i < |log| => Interval(log[i].from, log[i].to)))
  {
    var log := Build(fs).log;
    forall i: nat, j: nat | i < j < |log| ensures log[i].from <= log[j].from && log[i].to <= log[j].to {
      PeriodArrayIsSorted(fs, i, j);
    }
  }

  // ----- The program's loops -----

  /** bsearch_first_strided. */
  method SearchFirst(a: seq<Interval>, needle: Interval) returns (ret: Option<nat>)
    ensures ret == First(a, needle)
  {
    var l: nat := 0;
    ret := None;
    if |a| == 0 {
      return None;
    }
    var r: nat := |a| - 1;
    while l <= r
      invariant r < |a| && FirstFrom(a, needle, l, r, ret) == First(a, needle)
      decreases r + 1 - l
    {
      var m := SafeCenter(l, r);
      var cmpres := OverlapCmp(a[m], needle);
      if cmpres < 0 {
        if m == |a| - 1 {
          return ret;
        } else {
          l := m + 1;
        }
      } else if cmpres > 0 {
        if m == 0 {
          return ret;
        } else {
          r := m - 1;
        }
      } else {
        ret := Some(m);
        if m == 0 {
          return ret;
        } else {
          r := m - 1;
        }
      }
    }
  }

  /** bsearch_last_strided. */
  method SearchLast(a: seq<Interval>, needle: Interval) returns (ret: Option<nat>)
    ensures ret == Last(a, needle)
  {
    var l: nat := 0;
    ret := None;
    if |a| == 0 {
      return None;
    }
    var r: nat := |a| - 1;
    while l <= r
      invariant r < |a| && LastFrom(a, needle, l, r, ret) == Last(a, needle)
      decreases r + 1 - l
    {
      var m := SafeCenter(l, r);
      var cmpres := OverlapCmp(a[m], needle);
      if cmpres < 0 {
        if m == |a| - 1 {
          return ret;
        } else {
          l := m + 1;
        }
      } else if cmpres > 0 {
        if m == 0 {
          return ret;
        } else {
          r := m - 1;
        }
      } else {
        ret := Some(m);
        if m == |a| - 1 {
          return ret;
        } else {
          l := m + 1;
        }
      }
    }
  }

  /** The loop over overlapping elements: it visits all positions between the results of
      both searches, each once, in order. */
  method ForEachOverlapping(a: seq<Interval>, q: Interval) returns (visited: seq<nat>)
    ensures forall i: nat :: i in visited <==> Visited(a, q, i)
    ensures Ascending(visited)
    ensures StartsAndEndsSorted(a) ==> forall i: nat :: i in visited <==> i < |a| && Overlaps(a[i], q)
  {
    if StartsAndEndsSorted(a) {
      SearchesFind(a, q);
    }
    visited := [];
    var first := SearchFirst(a, q);
    if first == None {
      return;
    }
    var last := SearchLast(a, q);
    if last == None {
      return;
    }
    var pi: nat := first.value;
    while pi <= last.value
      invariant first.value <= pi && (pi <= last.value + 1 || pi == first.value)
      invariant forall i: nat :: i in visited <==> first.value <= i < pi
      invariant Ascending(visited)
      decreases last.value + 1 - pi
    {
      assert forall i: nat :: i < |visited| ==> visited[i] in visited;
      visited := visited + [pi];
      pi := pi + 1;
    }
  }
}
