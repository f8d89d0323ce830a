/** The binary max-heap that `heap_sort` builds in the first `size` cells of its
    buffer: the children of node k are 2k+1 and 2k+2. */
module HeapSpec {
  import opened Order

  /** The heap condition at node k: no child inside the heap is larger than k. */
  ghost predicate HeapAt(s: seq<int>, size: int, k: int) {
    0 <= k && size <= |s| ==>
      (2 * k + 1 < size ==> s[2 * k + 1] <= s[k]) &&
      (2 * k + 2 < size ==> s[2 * k + 2] <= s[k])
  }

  /** Every node from `lo` on satisfies the heap condition. */
  ghost predicate HeapFrom(s: seq<int>, lo: int, size: int) {
    forall k :: lo <= k < size ==> HeapAt(s, size, k)
  }

  /** In a heap every node is at most its ancestors, so at most the root. */
  lemma {:induction false} HeapAncestor(s: seq<int>, size: int, k: int)
    requires 0 <= k < size <= |s| && HeapFrom(s, 0, size)
    ensures s[k] <= s[0]
  {
    if k > 0 {
      var p := (k - 1) / 2;
      assert HeapAt(s, size, p);
      assert 2 * p + 1 == k || 2 * p + 2 == k;
      HeapAncestor(s, size, p);
    }
  }

  /** The root of a non-empty heap is its maximum. */
  lemma HeapRootIsMax(s: seq<int>, size: int)
    requires 0 < size <= |s| && HeapFrom(s, 0, size)
    ensures forall k :: 0 <= k < size ==> s[k] <= s[0]
  {
    forall k | 0 <= k < size ensures s[k] <= s[0] { HeapAncestor(s, size, k); }
  }

  /** Nodes from size/2 on have no child inside the heap. */
  lemma LeavesAreHeaps(s: seq<int>, size: int)
    requires 0 <= size <= |s|
    ensures HeapFrom(s, size / 2, size)
  {}

  /** Exchanging the root with the last cell of a heap and dropping that cell leaves a
      heap everywhere except, possibly, at the root. */
  lemma HeapAfterExtract(s: seq<int>, i: int)
    requires 0 <= i < |s| && HeapFrom(s, 0, i + 1)
    ensures HeapFrom(Swapped(s, 0, i), 1, i)
  {
    var t := Swapped(s, 0, i);
    forall k | 1 <= k < i ensures HeapAt(t, i, k) {
      assert HeapAt(s, i + 1, k);
    }
  }
}
