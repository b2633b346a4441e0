/** The two in-place quicksorts, by any strict weak order. */
module QuickSorts {
  import opened Powers

  // ---- Orders and sortedness ----

  ghost predicate StrictWeakOrder<T(!new)>(less: (T, T) -> bool) {
    && (forall x :: !less(x, x))
    && (forall x, y, z :: less(x, y) && less(y, z) ==> less(x, z))
    && (forall x, y, z :: less(x, z) ==> less(x, y) || less(y, z))
  }

  lemma Asymmetric<T(!new)>(less: (T, T) -> bool, x: T, y: T)
    requires StrictWeakOrder(less) && less(x, y)
    ensures !less(y, x)
  {
    var _ := less(x, x);
  }

  /** What is below something not above `y` is not above `y`. */
  lemma NotBelow<T(!new)>(less: (T, T) -> bool, x: T, y: T, z: T)
    requires StrictWeakOrder(less) && !less(x, y) && !less(y, z)
    ensures !less(x, z)
  {
  }

  lemma BelowNot<T(!new)>(less: (T, T) -> bool, x: T, y: T, z: T)
    requires StrictWeakOrder(less) && less(x, y) && !less(z, y)
    ensures !less(z, x)
  {
  }

  /** Elements of `[start, end)` are in order, except among those of `[lo, hi)`. */
  ghost predicate Settled<T>(s: seq<T>, less: (T, T) -> bool, start: int, lo: int, hi: int, end: int) {
    && 0 <= start <= end <= |s|
    && forall p, q :: start <= p < q < end && !(lo <= p && q < hi) ==> !less(s[q], s[p])
  }

  /** No later element of `[lo, hi)` is less than an earlier one. */
  ghost predicate Sorted<T>(s: seq<T>, less: (T, T) -> bool, lo: int, hi: int) {
    0 <= lo <= hi <= |s| && forall p, q :: lo <= p < q < hi ==> !less(s[q], s[p])
  }

  /** The same elements, moved only within `[lo, hi)`. */
  ghost predicate Rearranged<T>(s: seq<T>, t: seq<T>, lo: int, hi: int) {
    && |s| == |t| && 0 <= lo <= hi <= |s|
    && s[..lo] == t[..lo] && s[hi..] == t[hi..]
    && multiset(s[lo..hi]) == multiset(t[lo..hi])
  }

  lemma RearrangedOutside<T>(s: seq<T>, t: seq<T>, lo: int, hi: int, i: int)
    requires Rearranged(s, t, lo, hi) && 0 <= i < |s| && !(lo <= i < hi)
    ensures s[i] == t[i]
  {
    if i < lo {
      assert s[i] == s[..lo][i] && t[i] == t[..lo][i];
    } else {
      assert s[i] == s[hi..][i - hi] && t[i] == t[hi..][i - hi];
    }
  }

  lemma RearrangedInside<T>(s: seq<T>, t: seq<T>, lo: int, hi: int, i: int) returns (k: int)
    requires Rearranged(s, t, lo, hi) && lo <= i < hi
    ensures lo <= k < hi && t[i] == s[k]
  {
    assert t[i] == t[lo..hi][i - lo];
    assert t[i] in multiset(t[lo..hi]);
    assert t[i] in multiset(s[lo..hi]);
    var k' :| 0 <= k' < hi - lo && s[lo..hi][k'] == t[i];
    k := k' + lo;
  }

  lemma RearrangedTwice<T>(s: seq<T>, t: seq<T>, u: seq<T>, lo: int, hi: int)
    requires Rearranged(s, t, lo, hi) && Rearranged(t, u, lo, hi)
    ensures Rearranged(s, u, lo, hi)
  {
  }

  lemma MultisetSplit<T>(s: seq<T>, lo: int, a: int, b: int, hi: int)
    requires 0 <= lo <= a <= b <= hi <= |s|
    ensures multiset(s[lo..hi]) == multiset(s[lo..a]) + multiset(s[a..b]) + multiset(s[b..hi])
  {
    assert s[lo..hi] == s[lo..a] + s[a..b] + s[b..hi];
  }

  lemma RearrangedWider<T>(s: seq<T>, t: seq<T>, a: int, b: int, lo: int, hi: int)
    requires Rearranged(s, t, a, b) && 0 <= lo <= a && b <= hi <= |s|
    ensures Rearranged(s, t, lo, hi)
  {
    MultisetSplit(s, lo, a, b, hi);
    MultisetSplit(t, lo, a, b, hi);
    assert s[..lo] == s[..a][..lo] && t[..lo] == t[..a][..lo];
    assert s[hi..] == s[b..][hi - b..] && t[hi..] == t[b..][hi - b..];
    assert s[lo..a] == s[..a][lo..] && t[lo..a] == t[..a][lo..];
    assert s[b..hi] == s[b..][..hi - b] && t[b..hi] == t[b..][..hi - b];
  }

  function Swapped<T>(s: seq<T>, i: int, k: int): (t: seq<T>)
    requires 0 <= i < |s| && 0 <= k < |s|
    ensures |t| == |s|
  {
    s[i := s[k]][k := s[i]]
  }

  lemma SwapRearranges<T>(s: seq<T>, t: seq<T>, i: int, k: int, lo: int, hi: int)
    requires 0 <= lo <= i < hi <= |t| && lo <= k < hi && Rearranged(s, t, lo, hi)
    ensures Rearranged(s, Swapped(t, i, k), lo, hi)
  {
    var u := Swapped(t, i, k);
    assert u[..lo] == t[..lo] && u[hi..] == t[hi..];
    var m := t[lo..hi];
    assert u[lo..hi] == m[i - lo := m[k - lo]][k - lo := m[i - lo]];
  }

  /** `swap` of two elements of a range that has been rearranged from `s`. */
  method Swap<T>(a: array<T>, i: int, k: int, ghost s: seq<T>, ghost lo: int, ghost hi: int)
    requires 0 <= lo <= i < hi <= a.Length && lo <= k < hi && Rearranged(s, a[..], lo, hi)
    modifies a
    ensures a[..] == Swapped(old(a[..]), i, k)
    ensures Rearranged(s, a[..], lo, hi)
  {
    hide Rearranged;
    SwapRearranges(s, a[..], i, k, lo, hi);
    a[i], a[k] := a[k], a[i];
  }

  lemma RearrangedItself<T>(s: seq<T>, lo: int, hi: int)
    requires 0 <= lo <= hi <= |s|
    ensures Rearranged(s, s, lo, hi)
  {
  }

  lemma SettledKept<T>(s: seq<T>, t: seq<T>, less: (T, T) -> bool, start: int, lo: int, hi: int, end: int)
    requires Settled(s, less, start, lo, hi, end) && start <= lo <= hi <= end && Rearranged(s, t, lo, hi)
    ensures Settled(t, less, start, lo, hi, end)
  {
    forall p, q | start <= p < q < end && !(lo <= p && q < hi) ensures !less(t[q], t[p]) {
      var p' := RearrangedFrom(s, t, lo, hi, p);
      var q' := RearrangedFrom(s, t, lo, hi, q);
    }
  }

  lemma RearrangedFrom<T>(s: seq<T>, t: seq<T>, lo: int, hi: int, i: int) returns (k: int)
    requires Rearranged(s, t, lo, hi) && 0 <= i < |s|
    ensures 0 <= k < |s| && t[i] == s[k] && (if lo <= i < hi then lo <= k < hi else k == i)
  {
    if lo <= i < hi {
      k := RearrangedInside(s, t, lo, hi, i);
    } else {
      RearrangedOutside(s, t, lo, hi, i);
      k := i;
    }
  }

  lemma SortedKept<T>(s: seq<T>, t: seq<T>, less: (T, T) -> bool, a: int, b: int, lo: int, hi: int)
    requires Rearranged(s, t, a, b) && Sorted(s, less, lo, hi) && (hi <= a || b <= lo)
    ensures Sorted(t, less, lo, hi)
  {
    forall p, q | lo <= p < q < hi ensures !less(t[q], t[p]) {
      RearrangedOutside(s, t, a, b, p);
      RearrangedOutside(s, t, a, b, q);
    }
  }

  function Max(a: nat, b: nat): nat {
    if a > b then a else b
  }

  /** Calls nest at most logarithmically deep in the number of elements. */
  ghost predicate Shallow(depth: nat, size: int) {
    Pow2(depth) <= if size < 1 then 1 else size
  }

  /** One call more, on at most half of the elements. */
  lemma Deeper(depth: nat, part: int, size: int)
    requires Shallow(depth, part) && size >= 2 && 2 * part <= size
    ensures Shallow(depth + 1, size)
  {
  }

  // ---- Two pivots ----

  /** The three parts about the pivots at `j` and `g`. */
  ghost predicate Partitioned<T>(s: seq<T>, less: (T, T) -> bool, lo: int, j: int, g: int, hi: int) {
    && 0 <= lo <= j < g < hi <= |s|
    && !less(s[g], s[j])
    && (forall i :: lo <= i < j ==> less(s[i], s[j]))
    && (forall i :: j < i < g ==> !less(s[i], s[j]) && less(s[i], s[g]))
    && (forall i :: g < i < hi ==> !less(s[i], s[g]))
  }

  predicate SamePart(p: int, q: int, j: int, g: int) {
    q < j || (j < p && q < g) || g < p
  }

  lemma CrossParts<T(!new)>(s: seq<T>, less: (T, T) -> bool, lo: int, j: int, g: int, hi: int, p: int, q: int)
    requires StrictWeakOrder(less) && Partitioned(s, less, lo, j, g, hi)
    requires lo <= p < q < hi && !SamePart(p, q, j, g)
    ensures !less(s[q], s[p])
  {
    if p < j {
      if q == j {
        Asymmetric(less, s[p], s[j]);
      } else {
        if q > g {
          NotBelow(less, s[q], s[g], s[j]);
        }
        BelowNot(less, s[p], s[j], s[q]);
      }
    } else if p == j {
      if q > g {
        NotBelow(less, s[q], s[g], s[j]);
      }
    } else if p < g {
      if q == g {
        Asymmetric(less, s[p], s[g]);
      } else {
        BelowNot(less, s[p], s[g], s[q]);
      }
    }
  }

  lemma PartitionedKept<T>(s: seq<T>, t: seq<T>, less: (T, T) -> bool, lo: int, j: int, g: int, hi: int, a: int, b: int)
    requires Partitioned(s, less, lo, j, g, hi) && Rearranged(s, t, a, b)
    requires (a == lo && b == j) || (a == j + 1 && b == g) || (a == g + 1 && b == hi)
    ensures Partitioned(t, less, lo, j, g, hi)
  {
    RearrangedOutside(s, t, a, b, j);
    RearrangedOutside(s, t, a, b, g);
    forall i | lo <= i < hi
      ensures (i < j ==> less(t[i], t[j])) && (g < i ==> !less(t[i], t[g]))
      ensures j < i < g ==> !less(t[i], t[j]) && less(t[i], t[g])
    {
      var k := RearrangedFrom(s, t, a, b, i);
    }
  }

  /** Sorting the parts outside `[lo2, hi2)` settles all but that one. */
  lemma SettledNarrows<T(!new)>(s: seq<T>, less: (T, T) -> bool, start: int, lo: int, hi: int, end: int, j: int, g: int,
                                lo2: int, hi2: int)
    requires StrictWeakOrder(less) && Settled(s, less, start, lo, hi, end) && start <= lo && hi <= end
    requires Partitioned(s, less, lo, j, g, hi)
    requires (lo2 == lo && hi2 == j) || Sorted(s, less, lo, j)
    requires (lo2 == j + 1 && hi2 == g) || Sorted(s, less, j + 1, g)
    requires (lo2 == g + 1 && hi2 == hi) || Sorted(s, less, g + 1, hi)
    ensures Settled(s, less, start, lo2, hi2, end)
  {
    forall p, q | start <= p < q < end && !(lo2 <= p && q < hi2) ensures !less(s[q], s[p]) {
      if lo <= p && q < hi && !SamePart(p, q, j, g) {
        CrossParts(s, less, lo, j, g, hi, p, q);
      }
    }
  }

  lemma ThirdsSwapped<T(!new)>(s: seq<T>, less: (T, T) -> bool, start: int, end: int, third: int)
    requires 0 <= start < start + third < end - third < end < |s| && StrictWeakOrder(less)
    ensures var first := less(s[start + third], s[end - third]);
      var t := Swapped(s, start + third, if first then start else end);
      var u := Swapped(t, end - third, if first then end else start);
      !less(u[end], u[start])
  {
    if less(s[start + third], s[end - third]) {
      Asymmetric(less, s[start + third], s[end - third]);
    }
  }

  lemma EndsSwapped<T(!new)>(s: seq<T>, less: (T, T) -> bool, start: int, end: int)
    requires 0 <= start < end < |s| && StrictWeakOrder(less)
    ensures !less(s[start], s[end]) ==> var t := Swapped(s, start, end); !less(t[end], t[start])
    ensures less(s[start], s[end]) ==> !less(s[end], s[start])
  {
    if less(s[start], s[end]) {
      Asymmetric(less, s[start], s[end]);
    }
  }

  /** The first and the last element become the pivots, in order. */
  method ChoosePivots<T(!new)>(a: array<T>, start: int, end: int, less: (T, T) -> bool)
    requires 0 <= start < end < a.Length && StrictWeakOrder(less)
    modifies a
    ensures Rearranged(old(a[..]), a[..], start, end + 1) && !less(a[end], a[start])
  {
    hide Rearranged, StrictWeakOrder, Swapped;
    ghost var s := a[..];
    RearrangedItself(s, start, end + 1);
    var size := end - start + 1;
    if size > 3 {
      var third := size / 3;
      ThirdsSwapped(s, less, start, end, third);
      if less(a[start + third], a[end - third]) {
        Swap(a, start + third, start, s, start, end + 1);
        Swap(a, end - third, end, s, start, end + 1);
      } else {
        Swap(a, start + third, end, s, start, end + 1);
        Swap(a, end - third, start, s, start, end + 1);
      }
    } else {
      EndsSwapped(s, less, start, end);
      if !less(a[start], a[end]) {
        Swap(a, start, end, s, start, end + 1);
      }
    }
    assert a[end] == a[..][end] && a[start] == a[..][start];
  }

  /** Where the partitioning loop has got to: smaller elements before `j`, larger ones after `g`. */
  ghost predicate Partitioning<T>(s: seq<T>, less: (T, T) -> bool, start: int, end: int, j: int, k: int, g: int) {
    && 0 <= start < j <= k && j <= g + 1 && k <= g + 2 && g < end < |s|
    && !less(s[end], s[start])
    && (forall i :: start < i < j ==> less(s[i], s[start]))
    && (forall i :: j <= i < k && i <= g ==> !less(s[i], s[start]) && less(s[i], s[end]))
    && (forall i :: g < i < end ==> !less(s[i], s[end]))
  }

  lemma PartitioningStarts<T>(s: seq<T>, less: (T, T) -> bool, start: int, end: int)
    requires 0 <= start < end < |s| && !less(s[end], s[start])
    ensures Partitioning(s, less, start, end, start + 1, start + 1, end - 1)
  {
  }

  lemma SmallerFound<T>(s: seq<T>, less: (T, T) -> bool, start: int, end: int, j: int, k: int, g: int)
    requires Partitioning(s, less, start, end, j, k, g) && k <= g && less(s[k], s[start])
    ensures Partitioning(Swapped(s, k, j), less, start, end, j + 1, k + 1, g)
  {
  }

  lemma LargerSkipped<T>(s: seq<T>, less: (T, T) -> bool, start: int, end: int, j: int, k: int, g: int)
    requires Partitioning(s, less, start, end, j, k, g) && k < g && !less(s[g], s[end])
    ensures Partitioning(s, less, start, end, j, k, g - 1)
  {
  }

  /** The element at `k` belongs to the right and trades places with the one at `g`. */
  lemma LargerMoved<T(!new)>(s: seq<T>, less: (T, T) -> bool, start: int, end: int, j: int, k: int, g: int)
    requires Partitioning(s, less, start, end, j, k, g)
    requires k <= g && !less(s[k], s[start]) && !less(s[k], s[end]) && (k < g ==> less(s[g], s[end]))
    ensures var t := Swapped(s, k, g);
      && t[start] == s[start]
      && (less(t[k], t[start]) ==> Partitioning(Swapped(t, k, j), less, start, end, j + 1, k + 1, g - 1))
      && (!less(t[k], t[start]) ==> Partitioning(t, less, start, end, j, k + 1, g - 1))
  {
  }

  lemma MiddleFound<T>(s: seq<T>, less: (T, T) -> bool, start: int, end: int, j: int, k: int, g: int)
    requires Partitioning(s, less, start, end, j, k, g) && k <= g && !less(s[k], s[start]) && less(s[k], s[end])
    ensures Partitioning(s, less, start, end, j, k + 1, g)
  {
  }

  lemma PartitioningBounds<T>(s: seq<T>, less: (T, T) -> bool, start: int, end: int, j: int, k: int, g: int)
    requires Partitioning(s, less, start, end, j, k, g)
    ensures 0 <= start < j <= k && j <= g + 1 && k <= g + 2 && g < end < |s|
  {
  }

  /** Putting the pivots between the parts. */
  lemma PivotsPlaced<T>(s: seq<T>, less: (T, T) -> bool, start: int, end: int, j: int, k: int, g: int)
    requires Partitioning(s, less, start, end, j, k, g) && k > g
    ensures Partitioned(Swapped(Swapped(s, start, j - 1), end, g + 1), less, start, j - 1, g + 1, end + 1)
  {
  }

  /** The partitioning loop and the two swaps after it. The pivots stay at `start` and `end` until it is over. */
  method Partition<T(!new)>(a: array<T>, start: int, end: int, less: (T, T) -> bool) returns (j: int, g: int)
    requires 0 <= start < end < a.Length && StrictWeakOrder(less) && !less(a[end], a[start])
    modifies a
    ensures Rearranged(old(a[..]), a[..], start, end + 1)
    ensures Partitioned(a[..], less, start, j, g, end + 1)
  {
    hide StrictWeakOrder, Rearranged, Partitioned, Partitioning, Swapped;
    ghost var s := a[..];
    j, g := start + 1, end - 1;
    var k := start + 1;
    RearrangedItself(s, start, end + 1);
    PartitioningStarts(s, less, start, end);
    while k <= g
      invariant Partitioning(a[..], less, start, end, j, k, g)
      invariant Rearranged(s, a[..], start, end + 1)
      decreases g - k
    {
      ghost var t := a[..];
      PartitioningBounds(t, less, start, end, j, k, g);
      if less(a[k], a[start]) {
        SmallerFound(t, less, start, end, j, k, g);
        Swap(a, k, j, s, start, end + 1);
        j := j + 1;
      } else if !less(a[k], a[end]) {
        ghost var before := g;
        while !less(a[g], a[end]) && k < g
          invariant k <= g <= before < end && a[..] == t && Partitioning(t, less, start, end, j, k, g)
        {
          LargerSkipped(t, less, start, end, j, k, g);
          g := g - 1;
        }
        LargerMoved(t, less, start, end, j, k, g);
        Swap(a, k, g, s, start, end + 1);
        g := g - 1;
        assert a[k] == a[..][k] && a[start] == a[..][start];
        if less(a[k], a[start]) {
          Swap(a, k, j, s, start, end + 1);
          j := j + 1;
        }
      } else {
        MiddleFound(t, less, start, end, j, k, g);
      }
      k := k + 1;
    }
    PartitioningBounds(a[..], less, start, end, j, k, g);
    PivotsPlaced(a[..], less, start, end, j, k, g);
    j := j - 1;
    g := g + 1;
    Swap(a, start, j, s, start, end + 1);
    Swap(a, end, g, s, start, end + 1);
  }

  // ---- The sort by two pivots ----

  predicate IsPart(lo: int, j: int, g: int, hi: int, a: int, b: int) {
    (a == lo && b == j) || (a == j + 1 && b == g) || (a == g + 1 && b == hi)
  }

  /** What the outer loop keeps: all but `[lo, hi)` is in its final order. */
  ghost predicate Sorting<T>(s: seq<T>, t: seq<T>, less: (T, T) -> bool, start: int, lo: int, hi: int, end: int) {
    start <= lo <= hi <= end && Rearranged(s, t, start, end) && Settled(t, less, start, lo, hi, end)
  }

  lemma SortingStarts<T>(s: seq<T>, less: (T, T) -> bool, start: int, end: int)
    requires 0 <= start <= end <= |s|
    ensures Sorting(s, s, less, start, start, end, end)
  {
  }

  lemma SortingEnds<T>(s: seq<T>, t: seq<T>, less: (T, T) -> bool, start: int, lo: int, hi: int, end: int)
    requires Sorting(s, t, less, start, lo, hi, end) && hi <= lo + 1
    ensures Rearranged(s, t, start, end) && Sorted(t, less, start, end)
  {
  }

  lemma SortingGoesOn<T>(s: seq<T>, t: seq<T>, u: seq<T>, less: (T, T) -> bool, start: int, lo: int, hi: int, end: int)
    requires Sorting(s, t, less, start, lo, hi, end) && Rearranged(t, u, lo, hi)
    ensures Sorting(s, u, less, start, lo, hi, end)
  {
    SettledKept(t, u, less, start, lo, hi, end);
    RearrangedWider(t, u, lo, hi, start, end);
    RearrangedTwice(s, t, u, start, end);
  }

  /** Two of the three parts have been sorted, one after the other; the third is `[lo2, hi2)`. */
  lemma TwoPartsSorted<T(!new)>(s: seq<T>, t: seq<T>, u: seq<T>, v: seq<T>, less: (T, T) -> bool,
                                start: int, lo: int, hi: int, end: int, j: int, g: int,
                                a: int, b: int, c: int, e: int, lo2: int, hi2: int)
    requires StrictWeakOrder(less) && Sorting(s, t, less, start, lo, hi, end) && Partitioned(t, less, lo, j, g, hi)
    requires Rearranged(t, u, a, b) && Sorted(u, less, a, b) && Rearranged(u, v, c, e) && Sorted(v, less, c, e)
    requires IsPart(lo, j, g, hi, a, b) && IsPart(lo, j, g, hi, c, e) && IsPart(lo, j, g, hi, lo2, hi2)
    requires (b < c || e < a) && (b < lo2 || hi2 < a) && (e < lo2 || hi2 < c)
    ensures Sorting(s, v, less, start, lo2, hi2, end)
  {
    hide StrictWeakOrder, Partitioned, Rearranged, Sorted, Settled;
    PartitionedKept(t, u, less, lo, j, g, hi, a, b);
    PartitionedKept(u, v, less, lo, j, g, hi, c, e);
    PartitionedBounds(t, less, lo, j, g, hi);
    SortedKept(u, v, less, c, e, a, b);
    RearrangedWider(t, u, a, b, lo, hi);
    RearrangedWider(u, v, c, e, lo, hi);
    RearrangedTwice(t, u, v, lo, hi);
    SortingGoesOn(s, t, v, less, start, lo, hi, end);
    SettledNarrows(v, less, start, lo, hi, end, j, g, lo2, hi2);
  }

  lemma PartitionedBounds<T>(s: seq<T>, less: (T, T) -> bool, lo: int, j: int, g: int, hi: int)
    requires Partitioned(s, less, lo, j, g, hi)
    ensures 0 <= lo <= j < g < hi <= |s|
  {
  }

  lemma DeepestOf(depth: nat, d1: nat, d2: nat, part1: int, part2: int, largest: int, size: int)
    requires Shallow(depth, size) && Shallow(d1, part1) && Shallow(d2, part2)
    requires 2 <= part1 + part2 + largest + 2 <= size && part1 <= largest && part2 <= largest && part1 >= 0
    requires part2 >= 0
    ensures Shallow(Max(depth, Max(d1, d2) + 1), size)
  {
    Deeper(d1, part1, size);
    Deeper(d2, part2, size);
  }

  /** The end of a round: the two smaller parts are sorted by recursion, the largest is left for the next round. */
  method SortSmallerParts<T(!new)>(a: array<T>, lo: int, hi: int, left: int, right: int, less: (T, T) -> bool,
                                   ghost s: seq<T>, ghost start: int, ghost end: int, ghost deepest: nat)
      returns (lo2: int, hi2: int, ghost depth: nat)
    requires StrictWeakOrder(less) && 0 <= start && end < a.Length && lo < hi
    requires Sorting(s, a[..], less, start, lo, hi + 1, end + 1) && Partitioned(a[..], less, lo, left, right, hi + 1)
    requires Shallow(deepest, end + 1 - start)
    modifies a
    ensures start <= lo2 <= hi2 + 1 <= end + 1 && hi2 - lo2 < hi - lo
    ensures Sorting(s, a[..], less, start, lo2, hi2 + 1, end + 1) && Shallow(depth, end + 1 - start)
    decreases hi + 1 - lo, 0
  {
    hide StrictWeakOrder, Partitioned, Rearranged, Sorted, Settled, Sorting, Shallow, Max;
    SortingBounds(s, a[..], less, start, lo, hi + 1, end + 1);
    lo2, hi2 := lo, hi;
    ghost var u := a[..];
    PartitionedBounds(u, less, lo, left, right, hi + 1);
    var leftSize, middleSize, rightSize := left - lo, right - (left + 1), (hi + 1) - (right + 1);
    ghost var d1: nat, d2: nat;
    if leftSize >= middleSize && leftSize >= rightSize {
      d1 := DualPivotQuickSort(a, left + 1, right - 1, less);
      ghost var v := a[..];
      d2 := DualPivotQuickSort(a, right + 1, hi, less);
      TwoPartsSorted(s, u, v, a[..], less, start, lo, hi + 1, end + 1, left, right, left + 1, right, right + 1, hi + 1,
                     lo, left);
      DeepestOf(deepest, d1, d2, middleSize, rightSize, leftSize, end + 1 - start);
      hi2 := left - 1;
    } else if middleSize >= rightSize {
      d1 := DualPivotQuickSort(a, lo, left - 1, less);
      ghost var v := a[..];
      d2 := DualPivotQuickSort(a, right + 1, hi, less);
      TwoPartsSorted(s, u, v, a[..], less, start, lo, hi + 1, end + 1, left, right, lo, left, right + 1, hi + 1,
                     left + 1, right);
      DeepestOf(deepest, d1, d2, leftSize, rightSize, middleSize, end + 1 - start);
      lo2 := left + 1;
      hi2 := right - 1;
    } else {
      d1 := DualPivotQuickSort(a, lo, left - 1, less);
      ghost var v := a[..];
      d2 := DualPivotQuickSort(a, left + 1, right - 1, less);
      TwoPartsSorted(s, u, v, a[..], less, start, lo, hi + 1, end + 1, left, right, lo, left, left + 1, right,
                     right + 1, hi + 1);
      DeepestOf(deepest, d1, d2, leftSize, middleSize, rightSize, end + 1 - start);
      lo2 := right + 1;
    }
    depth := Max(deepest, Max(d1, d2) + 1);
  }

  lemma SortingBounds<T>(s: seq<T>, t: seq<T>, less: (T, T) -> bool, start: int, lo: int, hi: int, end: int)
    requires Sorting(s, t, less, start, lo, hi, end)
    ensures start <= lo <= hi <= end
  {
  }

  /** `dual_pivot_quick_sort`; `depth` is how deep the recursion below this call went. */
  method DualPivotQuickSort<T(!new)>(a: array<T>, start: int, end: int, less: (T, T) -> bool) returns (ghost depth: nat)
    requires 0 <= start <= end + 1 <= a.Length && StrictWeakOrder(less)
    modifies a
    ensures Rearranged(old(a[..]), a[..], start, end + 1)
    ensures Sorted(a[..], less, start, end + 1)
    ensures Shallow(depth, end + 1 - start)
    decreases end + 1 - start, 1
  {
    hide StrictWeakOrder, Partitioned, Rearranged, Sorted, Settled, Sorting, Shallow;
    ghost var s := a[..];
    var lo, hi := start, end;
    depth := 0;
    NoDepth(end + 1 - start);
    SortingStarts(s, less, start, end + 1);
    while lo < hi
      invariant start <= lo <= hi + 1 <= end + 1
      invariant Sorting(s, a[..], less, start, lo, hi + 1, end + 1) && Shallow(depth, end + 1 - start)
      decreases hi - lo
    {
      ghost var t := a[..];
      ChoosePivots(a, lo, hi, less);
      ghost var u := a[..];
      var left, right := Partition(a, lo, hi, less);
      RearrangedTwice(t, u, a[..], lo, hi + 1);
      SortingGoesOn(s, t, a[..], less, start, lo, hi + 1, end + 1);
      lo, hi, depth := SortSmallerParts(a, lo, hi, left, right, less, s, start, end, depth);
    }
    SortingEnds(s, a[..], less, start, lo, hi + 1, end + 1);
  }

  lemma NoDepth(size: int)
    ensures Shallow(0, size)
  {
  }

  // ---- One pivot ----

  /** The two parts about the pivot at `m`. */
  ghost predicate Divided<T>(s: seq<T>, less: (T, T) -> bool, lo: int, m: int, hi: int) {
    && 0 <= lo <= m < hi <= |s|
    && (forall i :: lo <= i < m ==> less(s[i], s[m]))
    && (forall i :: m < i < hi ==> !less(s[i], s[m]))
  }

  /** After `j` elements from `start`: those before `i` are less than the pivot, the others not. */
  ghost predicate Dividing<T>(s: seq<T>, less: (T, T) -> bool, start: int, i: int, j: int, size: int) {
    && 0 <= start && start + size <= |s| && 1 <= i <= j <= size
    && (forall k :: start < k < start + i ==> less(s[k], s[start]))
    && (forall k :: start + i <= k < start + j ==> !less(s[k], s[start]))
  }

  lemma DividingStep<T>(s: seq<T>, less: (T, T) -> bool, start: int, i: int, j: int, size: int)
    requires Dividing(s, less, start, i, j, size) && j < size
    ensures if less(s[start + j], s[start])
      then Dividing(Swapped(s, start + j, start + i), less, start, i + 1, j + 1, size)
      else Dividing(s, less, start, i, j + 1, size)
  {
  }

  lemma PivotPlaced<T>(s: seq<T>, less: (T, T) -> bool, start: int, i: int, size: int)
    requires Dividing(s, less, start, i, size, size)
    ensures Divided(Swapped(s, start, start + i - 1), less, start, start + i - 1, start + size)
  {
  }

  /** One round of `single_pivot_quick_sort`: the pivot from the middle, and its place. */
  method Divide<T(!new)>(a: array<T>, start: int, end: int, less: (T, T) -> bool) returns (i: int)
    requires 0 <= start && start + 1 < end <= a.Length && StrictWeakOrder(less)
    modifies a
    ensures Rearranged(old(a[..]), a[..], start, end)
    ensures 1 <= i <= end - start && Divided(a[..], less, start, start + i - 1, end)
  {
    hide StrictWeakOrder, Rearranged, Divided, Dividing, Swapped;
    ghost var s := a[..];
    RearrangedItself(s, start, end);
    var size := end - start;
    var pivotPoint := size / 2;
    if pivotPoint != 0 {
      Swap(a, start + pivotPoint, start, s, start, end);
    }
    i := 1;
    DividingStarts(a[..], less, start, size);
    for j := 1 to size
      invariant 1 <= i <= j && Rearranged(s, a[..], start, end) && Dividing(a[..], less, start, i, j, size)
    {
      DividingStep(a[..], less, start, i, j, size);
      if less(a[start + j], a[start]) {
        Swap(a, start + j, start + i, s, start, end);
        i := i + 1;
      }
    }
    PivotPlaced(a[..], less, start, i, size);
    Swap(a, start, start + i - 1, s, start, end);
  }

  lemma DividingStarts<T>(s: seq<T>, less: (T, T) -> bool, start: int, size: int)
    requires 0 <= start && start + size <= |s| && size >= 1
    ensures Dividing(s, less, start, 1, 1, size)
  {
  }

  lemma DividedKept<T>(s: seq<T>, t: seq<T>, less: (T, T) -> bool, lo: int, m: int, hi: int, a: int, b: int)
    requires Divided(s, less, lo, m, hi) && Rearranged(s, t, a, b) && ((a == lo && b == m) || (a == m + 1 && b == hi))
    ensures Divided(t, less, lo, m, hi)
  {
    RearrangedOutside(s, t, a, b, m);
    forall i | lo <= i < hi ensures (i < m ==> less(t[i], t[m])) && (i > m ==> !less(t[i], t[m])) {
      var k := RearrangedFrom(s, t, a, b, i);
    }
  }

  lemma AcrossPivot<T(!new)>(s: seq<T>, less: (T, T) -> bool, lo: int, m: int, hi: int, p: int, q: int)
    requires StrictWeakOrder(less) && Divided(s, less, lo, m, hi) && lo <= p <= m <= q < hi && p < q
    ensures !less(s[q], s[p])
  {
    if p < m {
      if q == m {
        Asymmetric(less, s[p], s[m]);
      } else {
        BelowNot(less, s[p], s[m], s[q]);
      }
    }
  }

  /** One of the two parts, `[a, b)`, has been sorted; the other is `[lo2, hi2)`. */
  lemma OnePartSorted<T(!new)>(s: seq<T>, t: seq<T>, u: seq<T>, less: (T, T) -> bool,
                               start: int, lo: int, m: int, hi: int, end: int, a: int, b: int, lo2: int, hi2: int)
    requires StrictWeakOrder(less) && Sorting(s, t, less, start, lo, hi, end) && Divided(t, less, lo, m, hi)
    requires Rearranged(t, u, a, b) && Sorted(u, less, a, b)
    requires (a == lo && b == m && lo2 == m + 1 && hi2 == hi) || (a == m + 1 && b == hi && lo2 == lo && hi2 == m)
    ensures Sorting(s, u, less, start, lo2, hi2, end)
  {
    DividedKept(t, u, less, lo, m, hi, a, b);
    RearrangedWider(t, u, a, b, lo, hi);
    SortingGoesOn(s, t, u, less, start, lo, hi, end);
    hide Rearranged, StrictWeakOrder;
    forall p, q | start <= p < q < end && !(lo2 <= p && q < hi2) ensures !less(u[q], u[p]) {
      if lo <= p <= m <= q < hi {
        AcrossPivot(u, less, lo, m, hi, p, q);
      }
    }
  }

  /** `single_pivot_quick_sort`; `depth` is how deep the recursion below this call went. */
  method SinglePivotQuickSort<T(!new)>(a: array<T>, start: int, end: int, less: (T, T) -> bool)
    returns (ghost depth: nat)
    requires 0 <= start <= end <= a.Length && StrictWeakOrder(less)
    modifies a
    ensures Rearranged(old(a[..]), a[..], start, end)
    ensures Sorted(a[..], less, start, end)
    ensures Shallow(depth, end - start)
    decreases end - start
  {
    hide StrictWeakOrder, Divided, Rearranged, Sorted, Settled, Sorting, Shallow, Max;
    ghost var s := a[..];
    var lo, hi := start, end;
    depth := 0;
    NoDepth(end - start);
    SortingStarts(s, less, start, end);
    while true
      invariant start <= lo <= hi <= end
      invariant Sorting(s, a[..], less, start, lo, hi, end) && Shallow(depth, end - start)
      decreases hi - lo
    {
      var size := hi - lo;
      if size <= 1 {
        SortingEnds(s, a[..], less, start, lo, hi, end);
        return;
      }

      ghost var t := a[..];
      var i := Divide(a, lo, hi, less);
      ghost var u := a[..];
      SortingGoesOn(s, t, u, less, start, lo, hi, end);
      ghost var d: nat;
      if i > size / 2 {
        d := SinglePivotQuickSort(a, lo + i, hi, less);
        OnePartSorted(s, u, a[..], less, start, lo, lo + i - 1, hi, end, lo + i, hi, lo, lo + i - 1);
        DeeperOf(depth, d, size - i, end - start);
        hi := lo + i - 1;
      } else {
        d := SinglePivotQuickSort(a, lo, lo + i - 1, less);
        OnePartSorted(s, u, a[..], less, start, lo, lo + i - 1, hi, end, lo, lo + i - 1, lo + i, hi);
        DeeperOf(depth, d, i - 1, end - start);
        lo := lo + i;
      }
      depth := Max(depth, d + 1);
    }
  }

  lemma DeeperOf(depth: nat, d: nat, part: int, size: int)
    requires Shallow(depth, size) && Shallow(d, part) && size >= 2 && 0 <= 2 * part <= size
    ensures Shallow(Max(depth, d + 1), size)
  {
    Deeper(d, part, size);
  }

  lemma WholeRearranged<T>(s: seq<T>, t: seq<T>)
    requires Rearranged(s, t, 0, |s|)
    ensures multiset(s) == multiset(t)
  {
    assert s[0..|s|] == s && t[0..|s|] == t;
  }

  /** `quick_sort` of a whole collection. */
  method QuickSort<T(!new)>(a: array<T>, less: (T, T) -> bool) returns (ghost depth: nat)
    requires StrictWeakOrder(less)
    modifies a
    ensures multiset(a[..]) == multiset(old(a[..]))
    ensures forall p, q :: 0 <= p < q < a.Length ==> !less(a[q], a[p])
    ensures a.Length > 0 ==> Pow2(depth) <= a.Length
  {
    hide StrictWeakOrder, Rearranged;
    depth := DualPivotQuickSort(a, 0, a.Length - 1, less);
    WholeRearranged(old(a[..]), a[..]);
  }
}
