/** `quick_sort` and its two helpers (Lomuto partition), on an int buffer. */
module QuickSorting {
  import opened Order

  /** `quick_sort`: the Lomuto quick sort of cells 0..size-1. Every partition adds two
      assignments per element sent left and two for placing its pivot; a window of n
      cells is partitioned at most n - 1 times. */
  method QuickSort(a: array<int>, comparison: nat, assignment: nat)
    returns (comparison': nat, assignment': nat)
    modifies a
    ensures Sorted(a[..]) && multiset(a[..]) == multiset(old(a[..]))
    ensures comparison <= comparison' && assignment + 2 * (comparison' - comparison) <= assignment'
    ensures var extra := assignment' - assignment - 2 * (comparison' - comparison);
      extra % 2 == 0 && extra <= 2 * (if a.Length == 0 then 0 else a.Length - 1)
      && (a.Length >= 2 ==> extra >= 2)
  {
    ghost var parts;
    comparison', assignment', parts := QuickSortRange(a, 0, a.Length - 1, comparison, assignment);
    WholeWindow(a[..], old(a[..]));
    EvenExtra(assignment' - assignment - 2 * (comparison' - comparison), parts);
  }

  lemma WholeWindow(t: seq<int>, s0: seq<int>)
    requires SortedWindow(t, s0, 0, |t| - 1)
    ensures Sorted(t) && multiset(t) == multiset(s0)
  {
    assert t == t[0..|t|] && s0 == s0[0..|s0|];
  }

  lemma EvenExtra(extra: int, parts: int)
    requires extra == 2 * parts
    ensures extra % 2 == 0
  {}

  /** `quick_sort_helper_1`: sorts cells low..high and leaves all others alone; `parts`
      is the number of partitions it performs, at most one per cell but the last. */
  method QuickSortRange(a: array<int>, low: int, high: int, comparison: nat, assignment: nat)
    returns (comparison': nat, assignment': nat, ghost parts: nat)
    requires 0 <= low <= high + 1 <= a.Length
    modifies a
    ensures SortedWindow(a[..], old(a[..]), low, high)
    ensures comparison <= comparison'
    ensures assignment' == assignment + 2 * (comparison' - comparison) + 2 * parts
    ensures parts <= (if high <= low then 0 else high - low) && (low < high ==> parts >= 1)
    decreases high - low
  {
    if low < high {
      ghost var s0 := a[..];
      var pi, c1, w1 := Partition(a, low, high, comparison, assignment);
      ghost var s1 := a[..];
      var c2, w2, left := QuickSortRange(a, low, pi - 1, c1, w1);
      ghost var s2 := a[..];
      var c3, w3, right := QuickSortRange(a, pi + 1, high, c2, w2);
      QuickStep(s0, s1, s2, a[..], low, pi, high, comparison, c1, c2, c3, assignment, w1, w2, w3, left, right);
      comparison', assignment', parts := c3, w3, 1 + left + right;
    } else {
      comparison', assignment', parts := comparison, assignment, 0;
      ShortWindow(a[..], low, high);
    }
  }

  /** The contents and counters after the partition and the two recursive calls of
      `quick_sort_helper_1`, stated on snapshots of the buffer. */
  lemma QuickStep(s0: seq<int>, s1: seq<int>, s2: seq<int>, s3: seq<int>, low: int, p: int, high: int,
                  c0: nat, c1: nat, c2: nat, c3: nat, w0: nat, w1: nat, w2: nat, w3: nat, left: nat, right: nat)
    requires low < high && low <= p <= high && PartitionedAt(s1, s0, low, high, p)
    requires c1 == c0 + (p - low) && w1 == w0 + 2 * (c1 - c0) + 2
    requires SortedWindow(s2, s1, low, p - 1) && c1 <= c2 && w2 == w1 + 2 * (c2 - c1) + 2 * left
    requires left <= (if p - 1 <= low then 0 else p - 1 - low)
    requires SortedWindow(s3, s2, p + 1, high) && c2 <= c3 && w3 == w2 + 2 * (c3 - c2) + 2 * right
    requires right <= (if high <= p + 1 then 0 else high - (p + 1))
    ensures SortedWindow(s3, s0, low, high)
    ensures c0 <= c3 && w3 == w0 + 2 * (c3 - c0) + 2 * (1 + left + right)
    ensures 1 <= 1 + left + right <= high - low
  {
    PartsBound(low, p, high, left, right);
    QuickCombine(s0, s1, s2, s3, low, p, high);
  }

  /** The partitions of both sides and the one at the pivot number at most high - low. */
  lemma PartsBound(low: int, p: int, high: int, left: nat, right: nat)
    requires low <= p <= high && low < high
    requires left <= (if p - 1 <= low then 0 else p - 1 - low)
    requires right <= (if high <= p + 1 then 0 else high - (p + 1))
    ensures 1 <= 1 + left + right <= high - low
  {}

  /** A window of at most one cell is sorted as it stands. */
  lemma ShortWindow(t: seq<int>, low: int, high: int)
    requires 0 <= low <= high + 1 <= |t| && high <= low
    ensures SortedWindow(t, t, low, high)
  {
    assert t[low..high + 1] == [] || t[low..high + 1] == [t[low]];
  }

  /** Cells low..high of `t` are those of `s0`, sorted; all other cells are as in `s0`. */
  ghost predicate SortedWindow(t: seq<int>, s0: seq<int>, low: int, high: int) {
    0 <= low <= high + 1 <= |t| == |s0|
    && Sorted(t[low..high + 1]) && multiset(t[low..high + 1]) == multiset(s0[low..high + 1])
    && t[..low] == s0[..low] && t[high + 1..] == s0[high + 1..]
  }

  /** Gluing the two recursive calls of `quick_sort_helper_1` around the pivot. */
  lemma QuickCombine(s0: seq<int>, s1: seq<int>, s2: seq<int>, s3: seq<int>, low: int, p: int, high: int)
    requires PartitionedAt(s1, s0, low, high, p)
    requires SortedWindow(s2, s1, low, p - 1) && SortedWindow(s3, s2, p + 1, high)
    ensures SortedWindow(s3, s0, low, high)
  {
    var l1, r1 := s1[low..p], s1[p + 1..high + 1];
    var l3, r3 := s3[low..p], s3[p + 1..high + 1];
    assert s3[..p + 1] == s2[..p + 1] && s2[p..] == s1[p..];
    SameBefore(s3, s2, p + 1, low, p);
    SameBefore(s3, s2, p + 1, p, p + 1);
    SameFrom(s2, s1, p, p + 1, high + 1);
    SameFrom(s2, s1, p, p, p + 1);
    assert s3[p..p + 1] == [s3[p]] && s2[p..p + 1] == [s2[p]] && s1[p..p + 1] == [s1[p]];
    PivotSides(s1, s0, low, high, p, l1, r1);
    assert s3[low..high + 1] == l3 + [s1[p]] + r3;
    assert s1[low..high + 1] == l1 + [s1[p]] + r1;
    SortedSides(l1, r1, l3, r3, s1[p], s1[low..high + 1], s3[low..high + 1]);
    QuickOutside(s1, s2, s3, low, p, high);
  }

  lemma QuickOutside(s1: seq<int>, s2: seq<int>, s3: seq<int>, low: int, p: int, high: int)
    requires 0 <= low <= p <= high < |s1| == |s2| == |s3|
    requires s2[..low] == s1[..low] && s2[p..] == s1[p..]
    requires s3[..p + 1] == s2[..p + 1] && s3[high + 1..] == s2[high + 1..]
    ensures s3[..low] == s1[..low] && s3[high + 1..] == s1[high + 1..]
  {
    SameBefore(s3, s2, p + 1, 0, low);
    SameFrom(s2, s1, p, high + 1, |s1|);
    assert s3[..low] == s3[0..low] && s2[..low] == s2[0..low];
    assert s2[high + 1..] == s2[high + 1..|s1|] && s1[high + 1..] == s1[high + 1..|s1|];
  }

  /** After the partition, the cells left of the pivot are at most it, those right of it exceed it. */
  lemma PivotSides(s1: seq<int>, s0: seq<int>, low: int, high: int, p: int, l1: seq<int>, r1: seq<int>)
    requires PartitionedAt(s1, s0, low, high, p) && l1 == s1[low..p] && r1 == s1[p + 1..high + 1]
    ensures (forall x :: x in l1 ==> x <= s1[p]) && (forall x :: x in r1 ==> s1[p] < x)
  {
    forall x | x in l1 ensures x <= s1[p] {
      var k :| 0 <= k < |l1| && l1[k] == x;
      assert l1[k] == s1[low + k];
    }
    forall x | x in r1 ensures s1[p] < x {
      var k :| 0 <= k < |r1| && r1[k] == x;
      assert r1[k] == s1[p + 1 + k];
    }
  }

  /** Sorting each side of the pivot separately sorts the whole window. */
  lemma SortedSides(l1: seq<int>, r1: seq<int>, l3: seq<int>, r3: seq<int>, pivot: int, w1: seq<int>, w3: seq<int>)
    requires (forall x :: x in l1 ==> x <= pivot) && (forall x :: x in r1 ==> pivot < x)
    requires Sorted(l3) && multiset(l3) == multiset(l1)
    requires Sorted(r3) && multiset(r3) == multiset(r1)
    requires w1 == l1 + [pivot] + r1 && w3 == l3 + [pivot] + r3
    ensures Sorted(w3) && multiset(w3) == multiset(w1)
  {
    BoundedByMultiset(l3, l1, pivot);
    forall x | x in r3 ensures pivot < x {
      assert x in multiset(r3);
      assert x in multiset(r1);
      assert x in r1;
    }
    SortedAroundPivot(l3, pivot, r3);
  }

  /** `quick_sort_helper_2`: Lomuto partition of cells low..high around the pivot
      `vec[high]`; returns the pivot's final index. Every cell at most the pivot costs
      one comparison and two assignments, and placing the pivot two more. */
  method Partition(a: array<int>, low: int, high: int, comparison: nat, assignment: nat)
    returns (p: int, comparison': nat, assignment': nat)
    requires 0 <= low <= high < a.Length
    modifies a
    ensures low <= p <= high && PartitionedAt(a[..], old(a[..]), low, high, p)
    ensures comparison' == comparison + (p - low)
    ensures assignment' == assignment + 2 * (comparison' - comparison) + 2
  {
    ghost var s0 := a[..];
    comparison', assignment' := comparison, assignment;
    var pivot := a[high];
    var i := low - 1;
    var j := low;
    while j < high
      invariant Partitioning(a[..], s0, low, high, i, j) && pivot == s0[high]
      invariant comparison' == comparison + (i + 1 - low)
      invariant assignment' == assignment + 2 * (comparison' - comparison)
    {
      i, comparison', assignment' := PartitionStep(a, low, high, pivot, i, j, s0, comparison', assignment');
      j := j + 1;
    }
    PartitionPlace(a[..], s0, low, high, i);
    assignment' := assignment' + 2;
    Swap(a, i + 1, high);
    p := i + 1;
  }

  /** One turn of the Lomuto loop: a cell at most the pivot is counted and swapped
      to the end of the low side; a larger one stays where it is. */
  method PartitionStep(a: array<int>, low: int, high: int, pivot: int, i: int, j: int, ghost s0: seq<int>,
                       comparison: nat, assignment: nat)
    returns (i': int, comparison': nat, assignment': nat)
    requires Partitioning(a[..], s0, low, high, i, j) && j < high && pivot == s0[high]
    modifies a
    ensures Partitioning(a[..], s0, low, high, i', j + 1)
    ensures comparison' == comparison + (i' - i) && assignment' == assignment + 2 * (i' - i)
  {
    if a[j] <= pivot {
      i', comparison', assignment' := PartitionTake(a, low, high, i, j, s0, comparison, assignment);
    } else {
      PartitionSkip(a[..], s0, low, high, i, j);
      i', comparison', assignment' := i, comparison, assignment;
    }
  }

  /** The turn of the Lomuto loop that finds a cell at most the pivot. */
  method PartitionTake(a: array<int>, low: int, high: int, i: int, j: int, ghost s0: seq<int>,
                       comparison: nat, assignment: nat)
    returns (i': int, comparison': nat, assignment': nat)
    requires Partitioning(a[..], s0, low, high, i, j) && j < high && a[j] <= s0[high]
    modifies a
    ensures Partitioning(a[..], s0, low, high, i', j + 1)
    ensures i' == i + 1 && comparison' == comparison + 1 && assignment' == assignment + 2
  {
    PartitionKeep(a[..], s0, low, high, i, j);
    comparison' := comparison + 1;
    assignment' := assignment + 2;
    i' := i + 1;
    Swap(a, i', j);
  }

  /** The invariant of the Lomuto loop: cells low..i are at most the pivot s0[high],
      cells i+1..j-1 exceed it, and only cells low..j-1 have moved. */
  ghost predicate Partitioning(s: seq<int>, s0: seq<int>, low: int, high: int, i: int, j: int) {
    0 <= low <= j <= high < |s| == |s0| && low - 1 <= i < j
    && (forall k :: low <= k <= i ==> s[k] <= s0[high])
    && (forall k :: i < k < j ==> s0[high] < s[k])
    && s[high] == s0[high]
    && s[..low] == s0[..low] && s[high + 1..] == s0[high + 1..]
    && multiset(s[low..high + 1]) == multiset(s0[low..high + 1])
  }

  lemma PartitionKeep(s: seq<int>, s0: seq<int>, low: int, high: int, i: int, j: int)
    requires Partitioning(s, s0, low, high, i, j) && j < high && s[j] <= s0[high]
    ensures Partitioning(Swapped(s, i + 1, j), s0, low, high, i + 1, j + 1)
  {
    SwappedWindow(s, i + 1, j, low, high + 1);
    var t := Swapped(s, i + 1, j);
    assert t[..low] == s[..low] && t[high + 1..] == s[high + 1..];
  }

  lemma PartitionSkip(s: seq<int>, s0: seq<int>, low: int, high: int, i: int, j: int)
    requires Partitioning(s, s0, low, high, i, j) && j < high && s0[high] < s[j]
    ensures Partitioning(s, s0, low, high, i, j + 1)
  {}

  /** Cells low..high of `t` are those of `s0` rearranged around s0[high], now at p:
      no larger cell before it, no cell at most it after it; other cells are as in `s0`. */
  ghost predicate PartitionedAt(t: seq<int>, s0: seq<int>, low: int, high: int, p: int) {
    0 <= low <= p <= high < |t| == |s0| && t[p] == s0[high]
    && (forall k :: low <= k < p ==> t[k] <= t[p])
    && (forall k :: p < k <= high ==> t[p] < t[k])
    && t[..low] == s0[..low] && t[high + 1..] == s0[high + 1..]
    && multiset(t[low..high + 1]) == multiset(s0[low..high + 1])
  }

  lemma PartitionPlace(s: seq<int>, s0: seq<int>, low: int, high: int, i: int)
    requires Partitioning(s, s0, low, high, i, high)
    ensures PartitionedAt(Swapped(s, i + 1, high), s0, low, high, i + 1)
  {
    SwappedWindow(s, i + 1, high, low, high + 1);
    var t := Swapped(s, i + 1, high);
    assert t[..low] == s[..low] && t[high + 1..] == s[high + 1..];
  }
}
