/** The two summaries `perform_test` reports over its trial durations. */
module Stats {
  import opened Order
  import opened MergeSpec

  function Sum(t: seq<int>): int
    decreases |t|
  {
    if t == [] then 0 else Sum(t[..|t| - 1]) + t[|t| - 1]
  }

  /** The durations in ascending order, as `std::sort` leaves `time_vec`. */
  function Ascending(t: seq<int>): (r: seq<int>)
    ensures |r| == |t|
  {
    MergeSortByLength(t, Id);
    MergeSortBy(t, Id)
  }

  lemma AscendingSorted(t: seq<int>)
    ensures Sorted(Ascending(t)) && multiset(Ascending(t)) == multiset(t)
  {
    MergeSortBySorted(t, Id);
    SortedById(Ascending(t));
    MergeSortByMultiset(t, Id);
  }

  /** `time_vec[m_test_count / 2]` after the sort. */
  function Median(t: seq<int>): (m: int)
    requires |t| > 0
    ensures m in t
  {
    AscendingSorted(t);
    assert Ascending(t)[|t| / 2] in multiset(t);
    Ascending(t)[|t| / 2]
  }

  /** The median is a duration with at least ⌊n/2⌋ durations at most it and at least
      n - 1 - ⌊n/2⌋ at least it; with one trial it is that trial's duration. */
  lemma MedianRank(t: seq<int>)
    requires |t| > 0
    ensures var a := Ascending(t);
      (forall k :: 0 <= k < |t| / 2 ==> a[k] <= Median(t))
      && (forall k :: |t| / 2 < k < |t| ==> Median(t) <= a[k])
    ensures |t| == 1 ==> Median(t) == t[0]
  {
    AscendingSorted(t);
    if |t| == 1 {
      assert Median(t) in t;
    }
  }

  /** The mean as the harness keeps it: the sum divided by the count, rounded down for
      the non-negative durations it sees. */
  function Mean(t: seq<int>): (m: int)
    requires |t| > 0
    ensures m * |t| <= Sum(t) < (m + 1) * |t|
  {
    Sum(t) / |t|
  }

  /** The mean of durations whose sum is non-negative is non-negative. */
  lemma MeanNonNegative(t: seq<int>)
    requires |t| > 0 && Sum(t) >= 0
    ensures Mean(t) >= 0
  {
    QuotientNonNegative(Sum(t), |t|);
  }

  lemma QuotientNonNegative(a: int, n: int)
    requires a >= 0 && n > 0
    ensures a / n >= 0
  {}

  /** A sum of non-negative durations is non-negative. */
  lemma {:induction false} SumNonNegative(t: seq<int>)
    requires forall k :: 0 <= k < |t| ==> t[k] >= 0
    ensures Sum(t) >= 0
    decreases |t|
  {
    if t != [] {
      SumNonNegative(t[..|t| - 1]);
    }
  }

  lemma {:induction false} SumAppend(s: seq<int>, t: seq<int>)
    ensures Sum(s + t) == Sum(s) + Sum(t)
    decreases |t|
  {
    if t == [] {
      assert s + t == s;
    } else {
      assert (s + t)[..|s + t| - 1] == s + t[..|t| - 1];
      SumAppend(s, t[..|t| - 1]);
    }
  }

  /** Reordering the durations does not change their sum. */
  lemma {:induction false} SumPermutation(s: seq<int>, t: seq<int>)
    requires multiset(s) == multiset(t)
    ensures Sum(s) == Sum(t)
    decreases |t|
  {
    if t == [] {
      assert |s| == |multiset(s)| == 0;
    } else {
      var x := t[|t| - 1];
      var t' := t[..|t| - 1];
      assert t == t' + [x];
      assert x in multiset(s);
      var i :| 0 <= i < |s| && s[i] == x;
      var s' := s[..i] + s[i + 1..];
      RemoveMultiset(s, i);
      assert multiset(s') == multiset(s) - multiset{x};
      assert multiset(t') == multiset(t) - multiset{x};
      SumPermutation(s', t');
      SumRemove(s, i);
    }
  }

  lemma RemoveMultiset(s: seq<int>, i: int)
    requires 0 <= i < |s|
    ensures multiset(s) == multiset(s[..i] + s[i + 1..]) + multiset{s[i]}
  {
    assert s == s[..i] + [s[i]] + s[i + 1..];
  }

  lemma SumRemove(s: seq<int>, i: int)
    requires 0 <= i < |s|
    ensures Sum(s) == Sum(s[..i] + s[i + 1..]) + s[i]
  {
    var p, q := s[..i + 1], s[i + 1..];
    assert p + q == s;
    assert p[..i] == s[..i];
    SumAppend(p, q);
    SumAppend(s[..i], q);
  }

  /** Averaging the sorted durations, as the harness does, gives the mean of the
      durations in the order they were measured. */
  lemma MeanAscending(t: seq<int>)
    requires |t| > 0
    ensures Mean(Ascending(t)) == Mean(t)
  {
    AscendingSorted(t);
    SumPermutation(Ascending(t), t);
  }
}
