/** `heap_sort` and its helper on an int buffer: build a max-heap bottom-up, then
    repeatedly exchange the root with the last cell of the heap and sift the new root
    down a heap one cell smaller. */
module HeapSorting {
  import opened Order
  import opened HeapSpec

  /** `heap_sort`: two assignments per extraction, and, for every exchange made while
      sifting, two assignments and one or two comparisons. */
  method HeapSort(a: array<int>, comparison: nat, assignment: nat)
    returns (comparison': nat, assignment': nat)
    modifies a
    ensures Sorted(a[..]) && multiset(a[..]) == multiset(old(a[..]))
    ensures assignment + 2 * a.Length <= assignment'
    ensures var extra := assignment' - assignment - 2 * a.Length;
      extra % 2 == 0 && comparison' - comparison <= extra <= 2 * (comparison' - comparison)
  {
    ghost var swaps: nat;
    comparison', assignment', swaps := BuildHeap(a, comparison, assignment);
    var i := a.Length - 1;
    ghost var s1 := a[..];
    while i >= 0
      invariant -1 <= i < a.Length
      invariant Extracting(a[..], i) && multiset(a[..]) == multiset(s1)
      invariant assignment' == assignment + 2 * (a.Length - 1 - i) + 2 * swaps
      invariant comparison + swaps <= comparison' <= comparison + 2 * swaps
    {
      assignment' := assignment' + 2;
      ghost var before := a[..];
      a[0], a[i] := a[i], a[0];
      assert a[..] == Swapped(before, 0, i);
      ExtractStep(before, i);
      ghost var t := a[..];
      ghost var more;
      comparison', assignment', more := SiftDown(a, i, 0, 0, comparison', assignment');
      ExtractSifted(a[..], t, i);
      swaps := swaps + more;
      i := i - 1;
    }
    ExtractedAll(a[..]);
    EvenExtra(assignment' - assignment - 2 * a.Length, swaps);
  }

  lemma EvenExtra(extra: int, swaps: int)
    requires extra == 2 * swaps
    ensures extra % 2 == 0
  {}

  /** The first loop of `heap_sort`: sift down every node from size/2 - 1 to 0, which
      makes the whole buffer a heap. */
  method BuildHeap(a: array<int>, comparison: nat, assignment: nat)
    returns (comparison': nat, assignment': nat, ghost swaps: nat)
    modifies a
    ensures HeapFrom(a[..], 0, a.Length) && multiset(a[..]) == multiset(old(a[..]))
    ensures assignment' == assignment + 2 * swaps
    ensures comparison + swaps <= comparison' <= comparison + 2 * swaps
  {
    comparison', assignment', swaps := comparison, assignment, 0;
    var i := a.Length / 2 - 1;
    LeavesAreHeaps(a[..], a.Length);
    while i >= 0
      invariant -1 <= i < a.Length && HeapFrom(a[..], i + 1, a.Length)
      invariant multiset(a[..]) == multiset(old(a[..]))
      invariant assignment' == assignment + 2 * swaps
      invariant comparison + swaps <= comparison' <= comparison + 2 * swaps
    {
      ghost var more;
      comparison', assignment', more := SiftDown(a, a.Length, i, i, comparison', assignment');
      swaps := swaps + more;
      i := i - 1;
    }
  }

  /** `heap_sort_helper`: sifts node i down the heap of the first `size` cells. Every
      node from `lo` on but i is a heap node, and the children of i are at most i's
      parent; afterwards every node from `lo` on is, and only cells i..size-1 moved. */
  method SiftDown(a: array<int>, size: int, i: int, ghost lo: int, comparison: nat, assignment: nat)
    returns (comparison': nat, assignment': nat, ghost swaps: nat)
    requires 0 <= i <= size <= a.Length && SiftInv(a[..], lo, size, i)
    modifies a
    ensures Sifted(a[..], old(a[..]), lo, size, i)
    ensures assignment' == assignment + 2 * swaps
    ensures comparison + swaps <= comparison' <= comparison + 2 * swaps
    ensures swaps <= size - i
    decreases size - i
  {
    comparison', assignment', swaps := comparison, assignment, 0;
    var largest;
    largest, comparison' := Largest(a, size, i, comparison');
    if largest != i {
      assignment' := assignment' + 2;
      ghost var before := a[..];
      a[i], a[largest] := a[largest], a[i];
      assert a[..] == Swapped(before, i, largest);
      SiftStep(before, lo, size, i, largest);
      ghost var sub;
      ghost var t := a[..];
      comparison', assignment', sub := SiftDown(a, size, largest, lo, comparison', assignment');
      SiftedThrough(before, t, a[..], lo, size, i, largest);
      swaps := 1 + sub;
    } else {
      SiftStop(a[..], lo, size, i);
    }
  }

  /** The first two branches of `heap_sort_helper`: the index of the largest of node i
      and its children inside the heap, i itself on a tie, then the left child; one
      comparison is counted each time the candidate changes. */
  method Largest(a: array<int>, size: int, i: int, comparison: nat) returns (largest: int, comparison': nat)
    requires 0 <= i <= size <= a.Length
    ensures LargestOf(a[..], size, i, largest)
    ensures largest == i ==> comparison' == comparison
    ensures largest != i ==> comparison + 1 <= comparison' <= comparison + 2
  {
    comparison' := comparison;
    largest := i;
    var left := 2 * i + 1;
    var right := 2 * i + 2;
    if left < size && a[left] > a[largest] {
      comparison' := comparison' + 1;
      largest := left;
    }
    if right < size && a[right] > a[largest] {
      comparison' := comparison' + 1;
      largest := right;
    }
  }

  /** `c` is node i or one of its children inside the heap, strictly larger than node i
      if it is a child, and at least both children. */
  ghost predicate LargestOf(s: seq<int>, size: int, i: int, c: int) {
    0 <= i <= size <= |s|
    && (c == i || ((c == 2 * i + 1 || c == 2 * i + 2) && c < size && s[i] < s[c]))
    && (2 * i + 1 < size ==> s[2 * i + 1] <= s[c])
    && (2 * i + 2 < size ==> s[2 * i + 2] <= s[c])
  }

  /** The precondition of `heap_sort_helper` at node i of the subheap rooted at lo. */
  ghost predicate SiftInv(s: seq<int>, lo: int, size: int, i: int) {
    0 <= lo <= i && size <= |s|
    && (forall k :: lo <= k < size && k != i ==> HeapAt(s, size, k))
    && (lo < i < size ==> ChildrenBelow(s, size, i, (i - 1) / 2))
  }

  /** Every child of i inside the heap is at most the cell at `p`. */
  ghost predicate ChildrenBelow(s: seq<int>, size: int, i: int, p: int) {
    0 <= i && 0 <= p < |s| && size <= |s|
    && (2 * i + 1 < size ==> s[2 * i + 1] <= s[p])
    && (2 * i + 2 < size ==> s[2 * i + 2] <= s[p])
  }

  /** `t` is a heap from lo on, a rearrangement of `s0` that moved only cells i..size-1. */
  ghost predicate Sifted(t: seq<int>, s0: seq<int>, lo: int, size: int, i: int) {
    |t| == |s0| && HeapFrom(t, lo, size) && multiset(t) == multiset(s0)
    && forall k :: 0 <= k < |t| && (k < i || size <= k) ==> t[k] == s0[k]
  }

  /** Exchanging i with its larger child moves the defect down to that child. */
  lemma SiftStep(s: seq<int>, lo: int, size: int, i: int, c: int)
    requires SiftInv(s, lo, size, i) && LargestOf(s, size, i, c) && c != i
    ensures SiftInv(Swapped(s, i, c), lo, size, c)
  {
    var t := Swapped(s, i, c);
    forall k | lo <= k < size && k != c ensures HeapAt(t, size, k) {
      if k == i {
      } else if lo < i && k == (i - 1) / 2 {
        assert 2 * k + 1 == i || 2 * k + 2 == i;
        assert HeapAt(s, size, k);
      } else {
        assert HeapAt(s, size, k);
        assert 2 * k + 1 != i && 2 * k + 2 != i;
      }
    }
    assert HeapAt(s, size, c);
    assert (c - 1) / 2 == i;
  }

  /** A node at least its children needs no exchange. */
  lemma SiftStop(s: seq<int>, lo: int, size: int, i: int)
    requires SiftInv(s, lo, size, i) && LargestOf(s, size, i, i)
    ensures Sifted(s, s, lo, size, i)
  {
    assert HeapAt(s, size, i);
  }

  /** The exchange at i followed by the recursive sift at its child c. */
  lemma SiftedThrough(s: seq<int>, t: seq<int>, u: seq<int>, lo: int, size: int, i: int, c: int)
    requires 0 <= i < c < size <= |s| && t == Swapped(s, i, c) && Sifted(u, t, lo, size, c)
    ensures Sifted(u, s, lo, size, i)
  {}

  /** The invariant of the extraction loop: cells 0..i form a heap, and cells after i
      are sorted and at least every cell of the heap. */
  ghost predicate Extracting(s: seq<int>, i: int) {
    -1 <= i < |s| && HeapFrom(s, 0, i + 1)
    && (forall x, y :: i < x < y < |s| ==> s[x] <= s[y])
    && (forall x, y :: 0 <= x <= i < y < |s| ==> s[x] <= s[y])
  }

  /** After exchanging the root with cell i, cells i.. are sorted and cells 0..i-1 form
      a heap but for the root. */
  lemma ExtractStep(s: seq<int>, i: int)
    requires 0 <= i && Extracting(s, i)
    ensures var t := Swapped(s, 0, i);
      SiftInv(t, 0, i, 0) && Sorted(t[i..])
      && (forall x, y :: 0 <= x < i <= y < |t| ==> t[x] <= t[y])
  {
    var t := Swapped(s, 0, i);
    HeapRootIsMax(s, i + 1);
    HeapAfterExtract(s, i);
    assert forall x :: 0 <= x < i ==> t[x] <= t[i];
    var w := t[i..];
    forall x, y | 0 <= x < y < |w| ensures w[x] <= w[y] {
      assert w[x] == t[i + x] && w[y] == t[i + y];
    }
  }

  /** Sifting the root of the heap 0..i-1 keeps cells i.. and the bound between them. */
  lemma ExtractSifted(u: seq<int>, t: seq<int>, i: int)
    requires 0 <= i < |t| && Sifted(u, t, 0, i, 0) && Sorted(t[i..])
    requires forall x, y :: 0 <= x < i <= y < |t| ==> t[x] <= t[y]
    ensures Extracting(u, i - 1)
  {
    assert u[i..] == t[i..];
    PrefixMultiset(u, t, i);
    forall x, y | 0 <= x < i <= y < |u| ensures u[x] <= u[y] {
      assert u[x] in u[..i];
      assert u[x] in multiset(u[..i]);
      assert u[x] in t[..i];
      var z :| 0 <= z < i && t[z] == u[x];
    }
    forall x, y | i <= x < y < |u| ensures u[x] <= u[y] {
      assert t[i..][x - i] <= t[i..][y - i];
    }
  }

  /** With the heap empty, the whole buffer is sorted. */
  lemma ExtractedAll(s: seq<int>)
    requires Extracting(s, -1)
    ensures Sorted(s)
  {}
}
