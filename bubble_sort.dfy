/** `bubble_sort` of the `sorting_algorithms` class, on an int buffer. */
module BubbleSorting {
  import opened Order

  /** `bubble_sort`: pass i bubbles the maximum of the first size - i cells to their end;
      each out-of-order neighbouring pair met costs one comparison and two assignments. */
  method BubbleSort(a: array<int>, comparison: nat, assignment: nat)
    returns (comparison': nat, assignment': nat)
    modifies a
    ensures Sorted(a[..]) && multiset(a[..]) == multiset(old(a[..]))
    ensures comparison' == comparison + Inversions(old(a[..]))
    ensures assignment' == assignment + 2 * Inversions(old(a[..]))
  {
    var size := a.Length;
    comparison', assignment' := comparison, assignment;
    var i := 0;
    while i < size - 1
      invariant 0 <= i <= (if size == 0 then 0 else size - 1) && comparison <= comparison'
      invariant Bubbling(a[..], old(a[..]), size - i, comparison' - comparison)
      invariant assignment' == assignment + 2 * (comparison' - comparison)
    {
      ghost var before := a[..];
      comparison', assignment' := BubblePass(a, size - 1 - i, comparison', assignment');
      BubbleOuterStep(before, a[..], size - 1 - i);
      i := i + 1;
    }
    BubbledAll(a[..], size - i);
    SortedIffNoInversions(a[..]);
  }

  /** The cells from b on are in place, the buffer is a permutation of s0, and the
      `swaps` exchanges so far each removed one inversion. */
  ghost predicate Bubbling(s: seq<int>, s0: seq<int>, b: int, swaps: int) {
    BubbledFrom(s, b) && multiset(s) == multiset(s0) && swaps + Inversions(s) == Inversions(s0)
  }

  /** The cells from b on are sorted and none is below an earlier cell. */
  ghost predicate BubbledFrom(s: seq<int>, b: int) {
    0 <= b <= |s| && Sorted(s[b..]) && forall k, m :: 0 <= k < b <= m < |s| ==> s[k] <= s[m]
  }

  lemma BubbledAll(s: seq<int>, b: int)
    requires BubbledFrom(s, b) && b <= 1
    ensures Sorted(s)
  {
    if b == 1 {
      assert s == [s[0]] + s[1..];
      SortedCons(s[0], s[1..]);
    }
  }

  /** One pass of the inner loop of `bubble_sort` over the pairs (j, j + 1), j < n. */
  method BubblePass(a: array<int>, n: int, comparison: nat, assignment: nat)
    returns (comparison': nat, assignment': nat)
    requires 0 <= n < a.Length
    modifies a
    ensures forall k :: 0 <= k <= n ==> a[k] <= a[n]
    ensures a[n + 1..] == old(a[n + 1..]) && multiset(a[..]) == multiset(old(a[..]))
    ensures comparison <= comparison'
    ensures comparison' + Inversions(a[..]) == comparison + Inversions(old(a[..]))
    ensures assignment' == assignment + 2 * (comparison' - comparison)
  {
    comparison', assignment' := comparison, assignment;
    var j := 0;
    while j < n
      invariant comparison <= comparison' && Passing(a[..], old(a[..]), n, j, comparison' - comparison)
      invariant assignment' == assignment + 2 * (comparison' - comparison)
    {
      ghost var before := a[..];
      PassStep(before, old(a[..]), n, j, comparison' - comparison);
      if a[j + 1] < a[j] {
        comparison' := comparison' + 1;
        assignment' := assignment' + 2;
        a[j], a[j + 1] := a[j + 1], a[j];
        assert a[..] == Swapped(before, j, j + 1);
      }
      j := j + 1;
    }
  }

  /** j steps into a pass over the first n + 1 cells of s0: the largest of the first
      j + 1 cells is at j, the cells after n are untouched, and the `swaps` exchanges
      made so far each removed one inversion. */
  ghost predicate Passing(s: seq<int>, s0: seq<int>, n: int, j: int, swaps: int) {
    0 <= j <= n < |s| == |s0|
    && (forall k :: 0 <= k <= j ==> s[k] <= s[j])
    && s[n + 1..] == s0[n + 1..] && multiset(s) == multiset(s0)
    && swaps + Inversions(s) == Inversions(s0)
  }

  /** One step of the pass exchanges the pair (j, j + 1) exactly when it is out of order. */
  lemma PassStep(s: seq<int>, s0: seq<int>, n: int, j: int, swaps: int)
    requires Passing(s, s0, n, j, swaps) && j < n
    ensures s[j + 1] < s[j] ==> Passing(Swapped(s, j, j + 1), s0, n, j + 1, swaps + 1)
    ensures s[j + 1] >= s[j] ==> Passing(s, s0, n, j + 1, swaps)
  {
    if s[j + 1] < s[j] {
      var s' := Swapped(s, j, j + 1);
      InversionsSwap(s, j);
      assert s'[n + 1..] == s[n + 1..];
    }
  }

  /** A finished pass over the first n + 1 cells extends the sorted tail to start at n. */
  lemma BubbleOuterStep(before: seq<int>, after: seq<int>, n: int)
    requires 0 <= n < |before| == |after| && BubbledFrom(before, n + 1)
    requires forall k :: 0 <= k <= n ==> after[k] <= after[n]
    requires after[n + 1..] == before[n + 1..] && multiset(after) == multiset(before)
    ensures BubbledFrom(after, n)
  {
    var head, head0 := after[..n + 1], before[..n + 1];
    PrefixMultiset(after, before, n + 1);
    forall k, m | 0 <= k < n <= m < |after| ensures after[k] <= after[m] {
      if m > n {
        assert after[m] == before[m];
        HeadBelow(before, n + 1, m);
        BoundedByMultiset(head, head0, before[m]);
        assert after[k] == head[k] && head[k] in head;
      }
    }
    var tail := after[n + 1..];
    assert after[n..] == [after[n]] + tail;
    forall k | 0 <= k < |tail| ensures after[n] <= tail[k] {
      assert tail[k] == before[n + 1 + k];
      HeadBelow(before, n + 1, n + 1 + k);
      BoundedByMultiset(head, head0, before[n + 1 + k]);
      assert after[n] == head[n] && head[n] in head;
    }
    SortedCons(after[n], tail);
  }

  lemma HeadBelow(s: seq<int>, b: int, m: int)
    requires BubbledFrom(s, b) && b <= m < |s|
    ensures forall x :: x in s[..b] ==> x <= s[m]
  {
    forall x | x in s[..b] ensures x <= s[m] {
      var k :| 0 <= k < b && s[..b][k] == x;
    }
  }
}
