/** `selection_sort` of the `sorting_algorithms` class, on an int buffer. */
module SelectionSorting {
  import opened Order
  import opened SelectionSpec

  /** `selection_sort`: each pass scans for the leftmost minimum, counting a comparison
      only when a strictly smaller element is found, then swaps it into place (two
      assignments, even when it already is in place). */
  method SelectionSort(a: array<int>, comparison: nat, assignment: nat)
    returns (comparison': nat, assignment': nat)
    modifies a
    ensures Sorted(a[..]) && multiset(a[..]) == multiset(old(a[..]))
    ensures comparison' == comparison + SelectionComparisons(old(a[..]))
    ensures assignment' == assignment + 2 * (if a.Length == 0 then 0 else a.Length - 1)
  {
    var size := a.Length;
    comparison', assignment' := comparison, assignment;
    var i := 0;
    while i < size - 1
      invariant 0 <= i <= size && (size > 0 ==> i < size)
      invariant SelectedUpTo(a[..], i)
      invariant multiset(a[..]) == multiset(old(a[..]))
      invariant comparison' + SelectionComparisons(a[i..]) == comparison + SelectionComparisons(old(a[..]))
      invariant assignment' == assignment + 2 * i
    {
      ghost var before := a[..];
      var min;
      min, comparison' := ScanMinimum(a, i, comparison');
      assignment' := assignment' + 2;
      a[i], a[min] := a[min], a[i];
      assert a[..] == Swapped(before, i, min);
      SelectionPass(before, i, min);
      i := i + 1;
    }
    SelectedAll(a[..], i);
  }

  /** The first i cells are sorted and none exceeds a later cell. */
  ghost predicate SelectedUpTo(s: seq<int>, i: int) {
    0 <= i <= |s| && Sorted(s[..i]) && forall k, m :: 0 <= k < i <= m < |s| ==> s[k] <= s[m]
  }

  lemma SelectedAll(s: seq<int>, i: int)
    requires SelectedUpTo(s, i) && |s| - 1 <= i
    ensures Sorted(s)
  {
    assert s == s[..i] + s[i..];
  }

  /** The inner loop of `selection_sort`: scans cells i+1.. for the leftmost minimum of
      the suffix starting at i, counting one comparison per strictly smaller cell met. */
  method ScanMinimum(a: array<int>, i: int, comparison: nat) returns (min: int, comparison': nat)
    requires 0 <= i < a.Length
    ensures i <= min < a.Length && min - i == ArgMin(a[i..])
    ensures comparison' == comparison + NewMinima(a[i..])
  {
    var size := a.Length;
    comparison' := comparison;
    min := i;
    var j := i + 1;
    ghost var rest := a[i..];
    assert |rest[..1]| == 1;
    while j < size
      invariant i < j <= size
      invariant i <= min < j && min - i == ArgMin(rest[..j - i])
      invariant comparison' == comparison + NewMinima(rest[..j - i])
    {
      ScanStep(rest, j - i);
      assert rest[j - i] == a[j] && rest[min - i] == a[min];
      if a[j] < a[min] {
        comparison' := comparison' + 1;
        min := j;
      }
      j := j + 1;
    }
    assert rest[..size - i] == rest;
  }

  /** One step of the inner scan of `SelectionSort`. */
  lemma ScanStep(s: seq<int>, k: int)
    requires 1 <= k < |s|
    ensures ArgMin(s[..k + 1]) == if s[k] < s[ArgMin(s[..k])] then k else ArgMin(s[..k])
    ensures NewMinima(s[..k + 1]) == NewMinima(s[..k]) + if s[k] < s[ArgMin(s[..k])] then 1 else 0
  {
    assert s[..k + 1][..k] == s[..k];
  }

  /** One outer pass of `SelectionSort`: exchanging cell i with the leftmost minimum of
      the unsorted suffix extends the sorted prefix by one and accounts for the pass's
      comparisons. */
  lemma SelectionPass(before: seq<int>, i: int, min: int)
    requires 0 <= i < |before| - 1 && i <= min < |before|
    requires min - i == ArgMin(before[i..])
    requires SelectedUpTo(before, i)
    ensures SelectedUpTo(Swapped(before, i, min), i + 1)
    ensures multiset(Swapped(before, i, min)) == multiset(before)
    ensures SelectionComparisons(before[i..])
      == NewMinima(before[i..]) + SelectionComparisons(Swapped(before, i, min)[i + 1..])
  {
    var rest := before[i..];
    var after := Swapped(before, i, min);
    SwappedWindow(before, i, min, i, |before|);
    assert after[i..] == SelectFirst(rest);
    assert after[i + 1..] == SelectFirst(rest)[1..];
    ArgMinIsLeftmostMin(rest);
    forall m | i <= m < |before| ensures before[min] <= before[m] {
      assert rest[m - i] == before[m];
    }
  }
}
