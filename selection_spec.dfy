/** What one pass of `selection_sort` computes: the scan for the minimum and the
    number of times that scan finds a new, strictly smaller minimum. */
module SelectionSpec {
  import opened Order

  /** The index the scan `if (vec[j] < vec[min]) min = j;` ends on: the leftmost
      position of the minimum. */
  function ArgMin(s: seq<int>): (k: nat)
    requires |s| > 0
    ensures k < |s|
  {
    if |s| == 1 then 0
    else
      var k := ArgMin(s[..|s| - 1]);
      if s[|s| - 1] < s[k] then |s| - 1 else k
  }

  /** The scan ends on a minimum, and on the first one. */
  lemma {:induction false} ArgMinIsLeftmostMin(s: seq<int>)
    requires |s| > 0
    ensures forall j :: 0 <= j < |s| ==> s[ArgMin(s)] <= s[j]
    ensures forall j :: 0 <= j < ArgMin(s) ==> s[ArgMin(s)] < s[j]
  {
    if |s| > 1 {
      ArgMinIsLeftmostMin(s[..|s| - 1]);
      assert forall j :: 0 <= j < |s| - 1 ==> s[..|s| - 1][j] == s[j];
    }
  }

  /** How many times the scan over `s` (starting on s[0]) meets a strictly smaller
      element: the comparisons `selection_sort` counts in one pass. */
  function NewMinima(s: seq<int>): nat
    requires |s| > 0
  {
    if |s| == 1 then 0
    else NewMinima(s[..|s| - 1]) + (if s[|s| - 1] < s[ArgMin(s[..|s| - 1])] then 1 else 0)
  }

  /** The buffer after one pass: s[0] exchanged with the leftmost minimum. */
  function SelectFirst(s: seq<int>): seq<int>
    requires |s| > 0
  {
    Swapped(s, 0, ArgMin(s))
  }

  /** Total comparisons `selection_sort` counts on `s`. */
  function SelectionComparisons(s: seq<int>): nat
    decreases |s|
  {
    if |s| <= 1 then 0 else NewMinima(s) + SelectionComparisons(SelectFirst(s)[1..])
  }

  /** A pass finds at most one new minimum per scanned cell. */
  lemma {:induction false} NewMinimaBound(s: seq<int>)
    requires |s| > 0
    ensures NewMinima(s) <= |s| - 1
  {
    if |s| > 1 { NewMinimaBound(s[..|s| - 1]); }
  }

  /** On sorted input no scan ever finds a strictly smaller element. */
  lemma {:induction false} NewMinimaSorted(s: seq<int>)
    requires |s| > 0 && Sorted(s)
    ensures NewMinima(s) == 0 && ArgMin(s) == 0
  {
    if |s| > 1 {
      assert Sorted(s[..|s| - 1]);
      NewMinimaSorted(s[..|s| - 1]);
      assert s[..|s| - 1][0] == s[0];
    }
  }

  /** Selection sort counts no comparison on input that is already sorted. */
  lemma {:induction false} SelectionComparisonsSorted(s: seq<int>)
    requires Sorted(s)
    ensures SelectionComparisons(s) == 0
    decreases |s|
  {
    if |s| > 1 {
      NewMinimaSorted(s);
      assert SelectFirst(s) == s;
      assert Sorted(s[1..]);
      SelectionComparisonsSorted(s[1..]);
    }
  }

  /** At most one comparison per pair of cells: n(n-1)/2 in all. */
  lemma {:induction false} SelectionComparisonsBound(s: seq<int>)
    ensures 2 * SelectionComparisons(s) <= |s| * (|s| - 1)
    decreases |s|
  {
    if |s| > 1 {
      var n := |s|;
      var rest := SelectFirst(s)[1..];
      NewMinimaBound(s);
      SelectionComparisonsBound(rest);
      var c := SelectionComparisons(rest);
      var m := NewMinima(s);
      assert SelectionComparisons(s) == m + c;
      assert 2 * c <= (n - 1) * (n - 2);
      MulStep(n);
    }
  }

  lemma MulStep(n: int)
    ensures 2 * (n - 1) + (n - 1) * (n - 2) == n * (n - 1)
  {}

  /** Worst case example: strictly decreasing input `[3, 2, 1]` gives two new minima
      in the first pass and none in the second. */
  lemma SelectionFixture()
    ensures SelectionComparisons([3, 2, 1]) == 2
  {
    var s := [3, 2, 1];
    assert s[..2] == [3, 2];
    assert [3, 2][..1] == [3];
    assert ArgMin([3, 2]) == 1;
    assert NewMinima([3, 2]) == 1;
    assert ArgMin(s) == 2;
    assert NewMinima(s) == 2;
    var t := SelectFirst(s)[1..];
    assert t == [2, 3];
    assert t[..1] == [2];
    assert NewMinima(t) == 0;
    assert SelectionComparisons(t) == 0 by { SelectionComparisonsSorted(t); }
  }
}
