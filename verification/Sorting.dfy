/** The in-place quicksort and quickselect with three-way partitioning and a pivot that
    moves along with the elements equal to it. */
module Sorting {
  import opened Wrappers

  // ----- Orders -----

  /** Comparison functions are total preorders. */
  ghost predicate Preorder<T(!new)>(cmp: (T, T) -> int) {
    && (forall x, y :: cmp(x, y) < 0 <==> cmp(y, x) > 0)
    && (forall x, y, z :: cmp(x, y) <= 0 && cmp(y, z) <= 0 ==> cmp(x, z) <= 0)
  }

  /** Equal elements compare alike with all others. */
  lemma SameSide<T(!new)>(cmp: (T, T) -> int, x: T, p: T, q: T)
    requires Preorder(cmp) && cmp(p, q) == 0
    ensures cmp(x, p) < 0 <==> cmp(x, q) < 0
    ensures cmp(x, p) > 0 <==> cmp(x, q) > 0
  {
    assert cmp(q, p) == 0;
    assert cmp(x, p) <= 0 ==> cmp(x, q) <= 0;
    assert cmp(x, q) <= 0 ==> cmp(x, p) <= 0;
    assert cmp(p, x) <= 0 ==> cmp(q, x) <= 0;
    assert cmp(q, x) <= 0 ==> cmp(p, x) <= 0;
  }

  lemma Between<T(!new)>(cmp: (T, T) -> int, x: T, p: T, y: T)
    requires Preorder(cmp) && cmp(x, p) <= 0 && cmp(y, p) >= 0
    ensures cmp(x, y) <= 0
    ensures cmp(x, p) < 0 || cmp(y, p) > 0 ==> cmp(x, y) < 0
  {
    assert cmp(p, y) <= 0;
    if cmp(x, y) == 0 {
      assert cmp(y, x) <= 0;
      assert cmp(y, p) <= 0 && cmp(p, x) <= 0;
    }
  }

  // ----- Permutations of a part of an array -----

  /** The two sequences agree up to a permutation of the elements from `lo` to `hi`. */
  ghost predicate Permuted<T>(s: seq<T>, t: seq<T>, lo: nat, hi: nat) {
    && |s| == |t| && lo <= hi <= |s|
    && s[..lo] == t[..lo] && s[hi..] == t[hi..] && multiset(s[lo..hi]) == multiset(t[lo..hi])
  }

  lemma PermutedTrans<T>(s: seq<T>, t: seq<T>, u: seq<T>, lo: nat, hi: nat)
    requires Permuted(s, t, lo, hi) && Permuted(t, u, lo, hi)
    ensures Permuted(s, u, lo, hi)
  {
  }

  /** A permutation of a part is one of every larger part. */
  lemma PermutedWider<T>(s: seq<T>, t: seq<T>, lo: nat, hi: nat, lo': nat, hi': nat)
    requires Permuted(s, t, lo, hi) && lo' <= lo && hi <= hi' <= |s|
    ensures Permuted(s, t, lo', hi')
  {
    assert s[..lo'] == s[..lo][..lo'] && t[..lo'] == t[..lo][..lo'];
    assert s[hi'..] == s[hi..][hi' - hi..] && t[hi'..] == t[hi..][hi' - hi..];
    assert s[lo'..hi'] == s[..lo][lo'..] + s[lo..hi] + s[hi..][..hi' - hi];
    assert t[lo'..hi'] == t[..lo][lo'..] + t[lo..hi] + t[hi..][..hi' - hi];
  }

  function Swapped<T>(s: seq<T>, i: nat, j: nat): (t: seq<T>)
    requires i < |s| && j < |s|
    ensures |t| == |s|
  {
    s[i := s[j]][j := s[i]]
  }

  lemma SwapPermutes<T>(s: seq<T>, i: nat, j: nat, lo: nat, hi: nat)
    requires lo <= i < hi && lo <= j < hi && hi <= |s|
    ensures Permuted(s, Swapped(s, i, j), lo, hi)
  {
    var t := Swapped(s, i, j);
    var x, y := s[lo..hi], t[lo..hi];
    assert y == x[i - lo := x[j - lo]][j - lo := x[i - lo]];
    assert multiset(y) == multiset(x);
  }

  lemma SwapKeeps<T>(s0: seq<T>, s: seq<T>, i: nat, j: nat, lo: nat, hi: nat)
    requires Permuted(s0, s, lo, hi) && lo <= i < hi && lo <= j < hi && hi <= |s|
    ensures Permuted(s0, Swapped(s, i, j), lo, hi)
  {
    SwapPermutes(s, i, j, lo, hi);
    PermutedTrans(s0, s, Swapped(s, i, j), lo, hi);
  }

  /** What holds of all elements of the part still does after a permutation. */
  lemma AllKept<T(!new)>(s: seq<T>, t: seq<T>, lo: nat, hi: nat, p: T -> bool)
    requires Permuted(s, t, lo, hi) && forall k: nat :: lo <= k < hi ==> p(s[k])
    ensures forall k: nat :: lo <= k < hi ==> p(t[k])
  {
    forall k: nat | lo <= k < hi ensures p(t[k]) {
      assert t[lo..hi][k - lo] == t[k];
      assert t[k] in multiset(t[lo..hi]);
      assert t[k] in s[lo..hi];
      var i: nat :| i < hi - lo && s[lo..hi][i] == t[k];
      assert s[lo + i] == t[k];
    }
  }

  lemma OutsideKept<T>(s: seq<T>, t: seq<T>, lo: nat, hi: nat)
    requires Permuted(s, t, lo, hi)
    ensures forall k: nat :: k < lo || hi <= k < |s| ==> t[k] == s[k]
  {
    forall k: nat | k < lo || hi <= k < |s| ensures t[k] == s[k] {
      if k < lo {
        assert t[..lo][k] == s[..lo][k];
      } else {
        assert t[hi..][k - hi] == s[hi..][k - hi];
      }
    }
  }

  // ----- Partitioning -----

  /** Elements from `lo` to `l` are below `p`, from `l` to `g` equal to it, and from `g`
      to `hi` above it. */
  ghost predicate Split<T(!new)>(s: seq<T>, lo: nat, l: nat, g: nat, hi: nat, p: T, cmp: (T, T) -> int) {
    && lo <= l <= g <= hi <= |s|
    && (forall k: nat :: lo <= k < l ==> cmp(s[k], p) < 0)
    && (forall k: nat :: l <= k < g ==> cmp(s[k], p) == 0)
    && (forall k: nat :: g <= k < hi ==> cmp(s[k], p) > 0)
  }

  method Swap<T>(a: array<T>, i: nat, j: nat)
    requires i < a.Length && j < a.Length
    modifies a
    ensures a[..] == Swapped(old(a[..]), i, j)
  {
    a[i], a[j] := a[j], a[i];
  }

  /** The loop's state: what has been compared, and what has not; the pivot pointer is
      at the first of the elements equal to the pivot. */
  ghost predicate Progress<T(!new)>(s: seq<T>, lo: nat, lt: nat, i: nat, gt: nat, n: nat, p: T, cmp: (T, T) -> int) {
    && lt <= i <= gt + 1 <= n && lo + n <= |s| && (lt < i || i == 0)
    && cmp(s[lo + lt], p) == 0
    && (forall k: nat :: lo <= k < lo + lt ==> cmp(s[k], p) < 0)
    && (forall k: nat :: lo + lt <= k < lo + i ==> cmp(s[k], p) == 0)
    && (forall k: nat :: lo + gt < k < lo + n ==> cmp(s[k], p) > 0)
  }

  lemma Smaller<T(!new)>(s: seq<T>, lo: nat, lt: nat, i: nat, gt: nat, n: nat, p: T, cmp: (T, T) -> int)
    requires Preorder(cmp) && i <= gt && Progress(s, lo, lt, i, gt, n, p, cmp) && cmp(s[lo + i], s[lo + lt]) < 0
    ensures lt < i && Progress(Swapped(s, lo + lt, lo + i), lo, lt + 1, i + 1, gt, n, p, cmp)
  {
    assert cmp(s[lo + i], s[lo + i]) == 0;
    SameSide(cmp, s[lo + i], s[lo + lt], p);
  }

  lemma Greater<T(!new)>(s: seq<T>, lo: nat, lt: nat, i: nat, gt: nat, n: nat, p: T, cmp: (T, T) -> int)
    requires Preorder(cmp) && i <= gt && Progress(s, lo, lt, i, gt, n, p, cmp) && cmp(s[lo + i], s[lo + lt]) > 0
    ensures lt < i <= gt && Progress(Swapped(s, lo + gt, lo + i), lo, lt, i, gt - 1, n, p, cmp)
  {
    assert cmp(s[lo + i], s[lo + i]) == 0;
    SameSide(cmp, s[lo + i], s[lo + lt], p);
  }

  lemma Equal<T(!new)>(s: seq<T>, lo: nat, lt: nat, i: nat, gt: nat, n: nat, p: T, cmp: (T, T) -> int)
    requires Preorder(cmp) && i <= gt && Progress(s, lo, lt, i, gt, n, p, cmp) && cmp(s[lo + i], s[lo + lt]) == 0
    ensures Progress(s, lo, lt, i + 1, gt, n, p, cmp)
  {
    SameSide(cmp, s[lo + i], s[lo + lt], p);
  }

  lemma ProgressStarts<T(!new)>(s: seq<T>, lo: nat, n: nat, cmp: (T, T) -> int)
    requires Preorder(cmp) && 2 <= n && lo + n <= |s|
    ensures Progress(s, lo, 0, 0, n - 1, n, s[lo], cmp)
  {
    assert cmp(s[lo], s[lo]) == 0;
  }

  lemma ProgressEnds<T(!new)>(s: seq<T>, lo: nat, lt: nat, i: nat, gt: nat, n: nat, p: T, cmp: (T, T) -> int)
    requires Progress(s, lo, lt, i, gt, n, p, cmp) && i > gt
    ensures lt <= gt < n && Split(s, lo, lo + lt, lo + gt + 1, lo + n, p, cmp)
  {
  }

  /** The branch for an element smaller than the pivot, which moves up by one. */
  method ExchangeSmaller<T(!new)>(a: array<T>, lo: nat, lt: nat, i: nat, gt: nat, n: nat, pivot: int,
                                  ghost p: T, ghost cmp: (T, T) -> int, ghost s0: seq<T>) returns (newPivot: int)
    requires Preorder(cmp) && i <= gt && Progress(a[..], lo, lt, i, gt, n, p, cmp) && pivot == lo + lt
    requires cmp(a[lo + i], a[pivot]) < 0 && Permuted(s0, a[..], lo, lo + n)
    modifies a
    ensures lt < i && newPivot == lo + lt + 1 && Progress(a[..], lo, lt + 1, i + 1, gt, n, p, cmp)
    ensures Permuted(s0, a[..], lo, lo + n)
  {
    hide Preorder; hide Permuted;
    Smaller(a[..], lo, lt, i, gt, n, p, cmp);
    SwapKeeps(s0, a[..], lo + lt, lo + i, lo, lo + n);
    Swap(a, lo + lt, lo + i);
    newPivot := pivot;
    if lo + lt == newPivot {
      newPivot := lo + lt + 1;
    }
  }

  /** The branch for an element greater than the pivot, which stays where it is. */
  method ExchangeGreater<T(!new)>(a: array<T>, lo: nat, lt: nat, i: nat, gt: nat, n: nat, pivot: int,
                                  ghost p: T, ghost cmp: (T, T) -> int, ghost s0: seq<T>) returns (newPivot: int)
    requires Preorder(cmp) && i <= gt && Progress(a[..], lo, lt, i, gt, n, p, cmp) && pivot == lo + lt
    requires cmp(a[lo + i], a[pivot]) > 0 && Permuted(s0, a[..], lo, lo + n)
    modifies a
    ensures lt < i <= gt && newPivot == lo + lt && Progress(a[..], lo, lt, i, gt - 1, n, p, cmp)
    ensures Permuted(s0, a[..], lo, lo + n)
  {
    hide Preorder; hide Permuted;
    Greater(a[..], lo, lt, i, gt, n, p, cmp);
    SwapKeeps(s0, a[..], lo + gt, lo + i, lo, lo + n);
    Swap(a, lo + gt, lo + i);
    newPivot := pivot;
    if lo + gt == newPivot {
      newPivot := lo + gt - 1;
    }
  }

  /** All elements of the part compare as equal. */
  ghost predicate Alike<T(!new)>(s: seq<T>, lo: nat, hi: nat, cmp: (T, T) -> int) {
    hi <= |s| && forall i: nat, j: nat :: lo <= i < hi && lo <= j < hi ==> cmp(s[i], s[j]) == 0
  }

  /** Sorting is not stable: it exchanges the first and the middle one of alike elements. */
  function Unsettled<T>(s: seq<T>, lo: nat, n: nat): (t: seq<T>)
    requires lo + n <= |s|
    ensures |t| == |s|
  {
    if n < 2 then s else Swapped(s, lo, lo + n / 2)
  }

  lemma UnsettledAlike<T(!new)>(s: seq<T>, lo: nat, n: nat, cmp: (T, T) -> int)
    requires lo + n <= |s| && Alike(s, lo, lo + n, cmp)
    ensures Alike(Unsettled(s, lo, n), lo, lo + n, cmp)
  {
  }

  lemma AlikeAre<T(!new)>(s: seq<T>, lo: nat, n: nat, i: nat, j: nat, cmp: (T, T) -> int)
    requires lo + n <= |s| && Alike(s, lo, lo + n, cmp) && i < n && j < n
    ensures cmp(s[lo + i], s[lo + j]) == 0
  {
  }

  /** The part of quicksort and quickselect that they share: `n` elements from `lo` on
      are partitioned around the one in the middle. */
  method Partition<T(!new)>(a: array<T>, lo: nat, n: nat, cmp: (T, T) -> int) returns (lt: nat, gt: nat, ghost p: T)
    requires Preorder(cmp) && 2 <= n && lo + n <= a.Length
    modifies a
    ensures Permuted(old(a[..]), a[..], lo, lo + n)
    ensures lt <= gt < n && Split(a[..], lo, lo + lt, lo + gt + 1, lo + n, p, cmp)
    ensures Alike(old(a[..]), lo, lo + n, cmp) ==> lt == 0 && gt == n - 1 && a[..] == Unsettled(old(a[..]), lo, n)
  {
    hide Preorder; hide Permuted; hide Progress; hide Split; hide Swapped; hide Alike;
    ghost var s0 := a[..];
    PermutedRefl(s0, lo, lo + n);
    var initialPivot := n / 2;
    if initialPivot != 0 {
      Swap(a, lo, lo + initialPivot);
      SwapPermutes(s0, lo, lo + initialPivot, lo, lo + n);
    }
    ghost var alike := Alike(s0, lo, lo + n, cmp);
    if alike {
      UnsettledAlike(s0, lo, n, cmp);
    }
    lt := 0;
    var i := 0;
    gt := n - 1;
    var pivot := lo;
    p := a[lo];
    ProgressStarts(a[..], lo, n, cmp);
    while i <= gt
      invariant lt <= i <= gt + 1 <= n && Progress(a[..], lo, lt, i, gt, n, p, cmp) && pivot == lo + lt
      invariant Permuted(s0, a[..], lo, lo + n)
      invariant alike ==> lt == 0 && gt == n - 1 && a[..] == Unsettled(s0, lo, n) && Alike(a[..], lo, lo + n, cmp)
      decreases gt + 1 - i
    {
      if alike {
        AlikeAre(a[..], lo, n, i, lt, cmp);
      }
      var res := cmp(a[lo + i], a[pivot]);
      if res < 0 {
        pivot := ExchangeSmaller(a, lo, lt, i, gt, n, pivot, p, cmp, s0);
        lt := lt + 1;
        i := i + 1;
      } else if res > 0 {
        pivot := ExchangeGreater(a, lo, lt, i, gt, n, pivot, p, cmp, s0);
        gt := gt - 1;
      } else {
        Equal(a[..], lo, lt, i, gt, n, p, cmp);
        i := i + 1;
      }
    }
    ProgressEnds(a[..], lo, lt, i, gt, n, p, cmp);
  }

  // ----- Sorting -----

  ghost predicate SortedPart<T(!new)>(s: seq<T>, lo: nat, hi: nat, cmp: (T, T) -> int) {
    lo <= hi <= |s| && forall i: nat, j: nat :: lo <= i < j < hi ==> cmp(s[i], s[j]) <= 0
  }

  /** Sorting below and above the pivot elements keeps the split. */
  lemma SplitKept<T(!new)>(s: seq<T>, t: seq<T>, lo: nat, l: nat, g: nat, hi: nat, p: T, cmp: (T, T) -> int)
    requires Split(s, lo, l, g, hi, p, cmp) && (Permuted(s, t, lo, l) || Permuted(s, t, g, hi))
    ensures Split(t, lo, l, g, hi, p, cmp)
  {
    if Permuted(s, t, lo, l) {
      AllKept(s, t, lo, l, x => cmp(x, p) < 0);
      OutsideKept(s, t, lo, l);
    } else {
      AllKept(s, t, g, hi, x => cmp(x, p) > 0);
      OutsideKept(s, t, g, hi);
    }
  }

  lemma SortedAcross<T(!new)>(s: seq<T>, lo: nat, l: nat, g: nat, hi: nat, p: T, cmp: (T, T) -> int)
    requires Preorder(cmp) && Split(s, lo, l, g, hi, p, cmp) && SortedPart(s, lo, l, cmp) && SortedPart(s, g, hi, cmp)
    ensures SortedPart(s, lo, hi, cmp)
  {
    forall i: nat, j: nat | lo <= i < j < hi ensures cmp(s[i], s[j]) <= 0 {
      if i < g && l <= j {
        Between(cmp, s[i], p, s[j]);
      }
    }
  }

  lemma SortedElsewhere<T(!new)>(s: seq<T>, t: seq<T>, lo: nat, hi: nat, l: nat, h: nat, cmp: (T, T) -> int)
    requires SortedPart(s, lo, hi, cmp) && Permuted(s, t, l, h) && (hi <= l || h <= lo)
    ensures SortedPart(t, lo, hi, cmp)
  {
    OutsideKept(s, t, l, h);
  }

  lemma FewAreSorted<T(!new)>(s: seq<T>, lo: nat, n: nat, cmp: (T, T) -> int)
    requires n < 2 && lo + n <= |s|
    ensures Permuted(s, s, lo, lo + n) && SortedPart(s, lo, lo + n, cmp)
  {
  }

  /** The array after partitioning, after sorting the lower and then the upper part. */
  lemma BothPartsSorted<T(!new)>(s0: seq<T>, s1: seq<T>, s2: seq<T>, s3: seq<T>, lo: nat, l: nat, g: nat, hi: nat, p: T,
                          cmp: (T, T) -> int)
    requires Preorder(cmp) && Permuted(s0, s1, lo, hi) && Split(s1, lo, l, g, hi, p, cmp)
    requires Permuted(s1, s2, lo, l) && SortedPart(s2, lo, l, cmp)
    requires Permuted(s2, s3, g, hi) && SortedPart(s3, g, hi, cmp)
    ensures Permuted(s0, s3, lo, hi) && SortedPart(s3, lo, hi, cmp)
  {
    SplitBounds(s1, lo, l, g, hi, p, cmp);
    hide Preorder; hide SortedPart; hide Split;
    SplitKept(s1, s2, lo, l, g, hi, p, cmp);
    SplitKept(s2, s3, lo, l, g, hi, p, cmp);
    SortedElsewhere(s2, s3, lo, l, g, hi, cmp);
    SortedAcross(s3, lo, l, g, hi, p, cmp);
    PermutedWider(s1, s2, lo, l, lo, hi);
    PermutedWider(s2, s3, g, hi, lo, hi);
    PermutedTrans(s0, s1, s2, lo, hi);
    PermutedTrans(s0, s2, s3, lo, hi);
  }

  lemma SplitBounds<T(!new)>(s: seq<T>, lo: nat, l: nat, g: nat, hi: nat, p: T, cmp: (T, T) -> int)
    requires Split(s, lo, l, g, hi, p, cmp)
    ensures lo <= l <= g <= hi <= |s|
  {
  }

  /** Quicksort of the `n` elements from `lo` on. */
  method QuickSort<T(!new)>(a: array<T>, lo: nat, n: nat, cmp: (T, T) -> int)
    requires Preorder(cmp) && lo + n <= a.Length
    modifies a
    ensures Permuted(old(a[..]), a[..], lo, lo + n) && SortedPart(a[..], lo, lo + n, cmp)
    ensures n < 2 || Alike(old(a[..]), lo, lo + n, cmp) ==> a[..] == Unsettled(old(a[..]), lo, n)
    decreases n
  {
    hide Preorder; hide Permuted; hide SortedPart; hide Split; hide Alike;
    ghost var s0 := a[..];
    if n < 2 {
      FewAreSorted(s0, lo, n, cmp);
      return;
    }
    var lt, gt, p := Partition(a, lo, n, cmp);
    ghost var s1 := a[..];
    SplitBounds(s1, lo, lo + lt, lo + gt + 1, lo + n, p, cmp);
    QuickSort(a, lo, lt, cmp);
    ghost var s2 := a[..];
    QuickSort(a, lo + gt + 1, n - gt - 1, cmp);
    BothPartsSorted(s0, s1, s2, a[..], lo, lo + lt, lo + gt + 1, lo + n, p, cmp);
  }

  /** A whole array is sorted; nothing is lost or duplicated. */
  method Sort<T(!new)>(a: array<T>, cmp: (T, T) -> int)
    requires Preorder(cmp)
    modifies a
    ensures multiset(a[..]) == multiset(old(a[..])) && SortedPart(a[..], 0, a.Length, cmp)
    ensures Alike(old(a[..]), 0, a.Length, cmp) ==> a[..] == Unsettled(old(a[..]), 0, a.Length)
  {
    ghost var s := a[..];
    QuickSort(a, 0, a.Length, cmp);
    assert s[0..a.Length] == s && a[..][0..a.Length] == a[..];
  }

  // ----- Selection -----

  /** Position `r` is the first with the value that sorting would put at `lo + n`:
      elements before it are smaller, those up to `lo + n` are equal to it, and those
      behind are not smaller. */
  ghost predicate Selected<T(!new)>(s: seq<T>, lo: nat, hi: nat, n: nat, r: nat, cmp: (T, T) -> int) {
    && lo <= r <= lo + n < hi <= |s|
    && (forall k: nat :: lo <= k < r ==> cmp(s[k], s[r]) < 0)
    && (forall k: nat :: r <= k <= lo + n ==> cmp(s[k], s[r]) == 0)
    && (forall k: nat :: lo + n < k < hi ==> cmp(s[k], s[r]) >= 0)
  }

  lemma SelectedInLower<T(!new)>(s: seq<T>, lo: nat, l: nat, g: nat, hi: nat, p: T, n: nat, r: nat, cmp: (T, T) -> int)
    requires Preorder(cmp) && Split(s, lo, l, g, hi, p, cmp) && Selected(s, lo, l, n, r, cmp)
    ensures Selected(s, lo, hi, n, r, cmp)
  {
    forall k: nat | l <= k < hi ensures cmp(s[k], s[r]) >= 0 {
      Between(cmp, s[r], p, s[k]);
    }
  }

  lemma SelectedInUpper<T(!new)>(s: seq<T>, lo: nat, l: nat, g: nat, hi: nat, p: T, n: nat, r: nat, cmp: (T, T) -> int)
    requires Preorder(cmp) && Split(s, lo, l, g, hi, p, cmp) && g <= lo + n && Selected(s, g, hi, lo + n - g, r, cmp)
    ensures Selected(s, lo, hi, n, r, cmp)
  {
    forall k: nat | lo <= k < g ensures cmp(s[k], s[r]) < 0 {
      Between(cmp, s[k], p, s[r]);
    }
  }

  lemma SelectedAtPivot<T(!new)>(s: seq<T>, lo: nat, l: nat, g: nat, hi: nat, p: T, n: nat, cmp: (T, T) -> int)
    requires Preorder(cmp) && Split(s, lo, l, g, hi, p, cmp) && l <= lo + n < g
    ensures Selected(s, lo, hi, n, l, cmp)
  {
    forall k: nat | lo <= k < hi
      ensures (cmp(s[k], s[l]) < 0 <==> cmp(s[k], p) < 0) && (cmp(s[k], s[l]) > 0 <==> cmp(s[k], p) > 0)
    {
      SameSide(cmp, s[k], s[l], p);
    }
  }

  lemma SelectedBelow<T(!new)>(s0: seq<T>, s1: seq<T>, s2: seq<T>, lo: nat, l: nat, g: nat, hi: nat, p: T, n: nat,
                        r: nat, cmp: (T, T) -> int)
    requires Preorder(cmp) && Permuted(s0, s1, lo, hi) && Split(s1, lo, l, g, hi, p, cmp)
    requires Permuted(s1, s2, lo, l) && Selected(s2, lo, l, n, r, cmp)
    ensures Permuted(s0, s2, lo, hi) && Selected(s2, lo, hi, n, r, cmp)
  {
    SplitBounds(s1, lo, l, g, hi, p, cmp);
    hide Preorder; hide Selected; hide Split;
    SplitKept(s1, s2, lo, l, g, hi, p, cmp);
    SelectedInLower(s2, lo, l, g, hi, p, n, r, cmp);
    PermutedWider(s1, s2, lo, l, lo, hi);
    PermutedTrans(s0, s1, s2, lo, hi);
  }

  lemma SelectedAbove<T(!new)>(s0: seq<T>, s1: seq<T>, s2: seq<T>, lo: nat, l: nat, g: nat, hi: nat, p: T, n: nat,
                        r: nat, cmp: (T, T) -> int)
    requires Preorder(cmp) && Permuted(s0, s1, lo, hi) && Split(s1, lo, l, g, hi, p, cmp)
    requires g <= lo + n && Permuted(s1, s2, g, hi) && Selected(s2, g, hi, lo + n - g, r, cmp)
    ensures Permuted(s0, s2, lo, hi) && Selected(s2, lo, hi, n, r, cmp)
  {
    SplitBounds(s1, lo, l, g, hi, p, cmp);
    hide Preorder; hide Selected; hide Split;
    SplitKept(s1, s2, lo, l, g, hi, p, cmp);
    SelectedInUpper(s2, lo, l, g, hi, p, n, r, cmp);
    PermutedWider(s1, s2, g, hi, lo, hi);
    PermutedTrans(s0, s1, s2, lo, hi);
  }

  lemma OneIsSelected<T(!new)>(s: seq<T>, lo: nat, cmp: (T, T) -> int)
    requires Preorder(cmp) && lo < |s|
    ensures Selected(s, lo, lo + 1, 0, lo, cmp)
  {
    assert cmp(s[lo], s[lo]) == 0;
  }

  lemma PermutedRefl<T>(s: seq<T>, lo: nat, hi: nat)
    requires lo <= hi <= |s|
    ensures Permuted(s, s, lo, hi)
  {
  }

  /** The position of the first element equal to the n-th in ascending order, or none. */
  method QuickSelect<T(!new)>(a: array<T>, lo: nat, len: nat, n: nat, cmp: (T, T) -> int) returns (r: Option<nat>)
    requires Preorder(cmp) && lo + len <= a.Length
    modifies a
    ensures Permuted(old(a[..]), a[..], lo, lo + len)
    ensures if n < len then r.Some? && Selected(a[..], lo, lo + len, n, r.value, cmp) else r == None
    decreases len
  {
    hide Preorder; hide Permuted; hide Split; hide Selected; hide SortedPart; hide Alike; hide Unsettled;
    ghost var s0 := a[..];
    PermutedRefl(s0, lo, lo + len);
    if n >= len {
      return None;
    }
    if len < 2 {
      OneIsSelected(s0, lo, cmp);
      return Some(lo);
    }
    var lt, gt, p := Partition(a, lo, len, cmp);
    ghost var s1 := a[..];
    SplitBounds(s1, lo, lo + lt, lo + gt + 1, lo + len, p, cmp);
    if n < lt {
      r := QuickSelect(a, lo, lt, n, cmp);
      SelectedBelow(s0, s1, a[..], lo, lo + lt, lo + gt + 1, lo + len, p, n, r.value, cmp);
    } else if n > gt {
      r := QuickSelect(a, lo + gt + 1, len - gt - 1, n - gt - 1, cmp);
      SelectedAbove(s0, s1, a[..], lo, lo + lt, lo + gt + 1, lo + len, p, n, r.value, cmp);
    } else {
      SelectedAtPivot(a[..], lo, lo + lt, lo + gt + 1, lo + len, p, n, cmp);
      r := Some(lo + lt);
    }
  }

  // ----- Selection agrees with sorting -----

  /** The number of elements with a property. */
  function Count<T>(s: seq<T>, p: T -> bool): nat {
    if s == [] then 0 else Count(s[1..], p) + if p(s[0]) then 1 else 0
  }

  lemma {:induction false} CountConcat<T>(s: seq<T>, t: seq<T>, p: T -> bool)
    ensures Count(s + t, p) == Count(s, p) + Count(t, p)
  {
    if s == [] {
      assert s + t == t;
    } else {
      assert (s + t)[1..] == s[1..] + t;
      CountConcat(s[1..], t, p);
    }
  }

  lemma {:induction false} CountAll<T>(s: seq<T>, p: T -> bool)
    ensures (forall i: nat :: i < |s| ==> p(s[i])) ==> Count(s, p) == |s|
    ensures (forall i: nat :: i < |s| ==> !p(s[i])) ==> Count(s, p) == 0
    ensures Count(s, p) <= |s|
  {
    if s != [] {
      CountAll(s[1..], p);
      assert forall i: nat :: i < |s| - 1 ==> s[1..][i] == s[i + 1];
    }
  }

  lemma Cancel<T>(a: multiset<T>, b: multiset<T>, c: multiset<T>)
    requires a + c == b + c
    ensures a == b
  {
    assert a == (a + c) - c;
  }

  lemma {:induction false} CountPermuted<T>(s: seq<T>, t: seq<T>, p: T -> bool)
    requires multiset(s) == multiset(t)
    ensures Count(s, p) == Count(t, p)
  {
    if s == [] {
      assert |multiset(t)| == |t| && |multiset(s)| == |s|;
    } else {
      var x := s[0];
      assert x in multiset(t);
      var i: nat :| i < |t| && t[i] == x;
      var rest := t[..i] + t[i + 1..];
      assert s == [x] + s[1..];
      assert t == t[..i] + [x] + t[i + 1..];
      assert multiset(s) == multiset{x} + multiset(s[1..]);
      assert multiset(t) == multiset(t[..i]) + multiset{x} + multiset(t[i + 1..]);
      assert multiset(rest) == multiset(t[..i]) + multiset(t[i + 1..]);
      assert multiset(rest) + multiset{x} == multiset(t);
      assert multiset(s[1..]) + multiset{x} == multiset(s);
      Cancel(multiset(rest), multiset(s[1..]), multiset{x});
      CountPermuted(s[1..], rest, p);
      CountConcat(t[..i], t[i + 1..], p);
      CountConcat(t[..i] + [x], t[i + 1..], p);
      CountConcat(t[..i], [x], p);
    }
  }

  /** In a sequence split at `m` into elements with and without a property, `m` elements
      have the property. */
  lemma CountSplit<T>(s: seq<T>, m: nat, p: T -> bool)
    requires m <= |s|
    ensures (forall k: nat :: m <= k < |s| ==> !p(s[k])) ==> Count(s, p) <= m
    ensures (forall k: nat :: k < m ==> p(s[k])) ==> Count(s, p) >= m
  {
    assert s == s[..m] + s[m..];
    CountConcat(s[..m], s[m..], p);
    CountAll(s[..m], p);
    CountAll(s[m..], p);
    assert forall k: nat :: m <= k < |s| ==> s[m..][k - m] == s[k];
  }

  lemma SortedNotBelow<T(!new)>(s: seq<T>, t: seq<T>, n: nat, r: nat, cmp: (T, T) -> int)
    requires Preorder(cmp) && multiset(s) == multiset(t) && |s| == |t|
    requires Selected(s, 0, |s|, n, r, cmp) && SortedPart(t, 0, |t|, cmp)
    ensures cmp(t[n], s[r]) >= 0
  {
    var v := s[r];
    var below := x => cmp(x, v) < 0;
    CountPermuted(s, t, below);
    CountSplit(s, r, below);
    if cmp(t[n], v) < 0 {
      forall k: nat | k < n + 1 ensures below(t[k]) {
        if k < n {
          assert cmp(t[k], t[n]) <= 0;
          SmallerStill(cmp, t[k], t[n], v);
        }
      }
      hide Preorder; hide SortedPart; hide Count;
      CountSplit(t, n + 1, below);
    }
  }

  lemma SortedNotAbove<T(!new)>(s: seq<T>, t: seq<T>, n: nat, r: nat, cmp: (T, T) -> int)
    requires Preorder(cmp) && multiset(s) == multiset(t) && |s| == |t|
    requires Selected(s, 0, |s|, n, r, cmp) && SortedPart(t, 0, |t|, cmp)
    ensures cmp(t[n], s[r]) <= 0
  {
    var v := s[r];
    var upTo := x => cmp(x, v) <= 0;
    CountPermuted(s, t, upTo);
    CountSplit(s, n + 1, upTo);
    if cmp(t[n], v) > 0 {
      forall k: nat | n <= k < |t| ensures !upTo(t[k]) {
        if n < k {
          assert cmp(t[n], t[k]) <= 0;
          SmallerStill(cmp, v, t[n], t[k]);
        }
      }
      hide Preorder; hide SortedPart; hide Count;
      CountSplit(t, n, upTo);
    }
  }

  /** The selected element is the one that sorting puts at position `n`. */
  lemma SelectedIsSorted<T(!new)>(s: seq<T>, t: seq<T>, n: nat, r: nat, cmp: (T, T) -> int)
    requires Preorder(cmp) && multiset(s) == multiset(t) && |s| == |t|
    requires Selected(s, 0, |s|, n, r, cmp) && SortedPart(t, 0, |t|, cmp)
    ensures cmp(t[n], s[r]) == 0
  {
    SortedNotBelow(s, t, n, r, cmp);
    SortedNotAbove(s, t, n, r, cmp);
  }

  lemma SmallerStill<T(!new)>(cmp: (T, T) -> int, x: T, y: T, z: T)
    requires Preorder(cmp) && cmp(x, y) <= 0 && cmp(y, z) <= 0 && (cmp(x, y) < 0 || cmp(y, z) < 0)
    ensures cmp(x, z) < 0
  {
    assert cmp(z, x) <= 0 ==> cmp(y, x) <= 0;
    assert cmp(z, x) <= 0 ==> cmp(z, y) <= 0;
  }
}
