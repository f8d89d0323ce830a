/** The top-down merge sort of `merge_sort`, as functions: the merge step that takes
    from the left run on ties, and the split at the midpoint `m = l + (r - l) / 2`.
    The functions are generic over an element type ordered by an integer key, so that
    stability can be stated: the int buffer of the harness is the instance whose key
    is the value itself. */
module MergeSpec {
  import opened Order

  /** Non-decreasing by key. */
  ghost predicate SortedBy<T>(s: seq<T>, key: T -> int) {
    forall i, j :: 0 <= i < j < |s| ==> key(s[i]) <= key(s[j])
  }

  /** Merge of two runs; ties take the left run, as `if (L[i] <= M[j])` does. */
  function MergeBy<T>(xs: seq<T>, ys: seq<T>, key: T -> int): seq<T>
    decreases |xs| + |ys|
  {
    if xs == [] then ys
    else if ys == [] then xs
    else if key(xs[0]) <= key(ys[0]) then [xs[0]] + MergeBy(xs[1..], ys, key)
    else [ys[0]] + MergeBy(xs, ys[1..], key)
  }

  /** Length of the left half: cells l..m of l..r with m = l + (r - l) / 2. */
  function LeftHalf(n: nat): nat
    requires n >= 2
  {
    (n - 1) / 2 + 1
  }

  /** Top-down merge sort. */
  function MergeSortBy<T>(s: seq<T>, key: T -> int): seq<T>
    decreases |s|
  {
    if |s| <= 1 then s
    else
      var h := LeftHalf(|s|);
      MergeBy(MergeSortBy(s[..h], key), MergeSortBy(s[h..], key), key)
  }

  /** The key of the int buffer. */
  function Id(x: int): int { x }

  /** The subsequence of elements whose key is `k`, in their order. */
  function Filter<T>(s: seq<T>, key: T -> int, k: int): seq<T> {
    if s == [] then [] else (if key(s[0]) == k then [s[0]] else []) + Filter(s[1..], key, k)
  }

  /** Cell writes of a top-down merge sort on n cells: every merge writes its whole range. */
  function MergeSortWrites(n: nat): nat
    decreases n
  {
    if n <= 1 then 0 else n + MergeSortWrites(LeftHalf(n)) + MergeSortWrites(n - LeftHalf(n))
  }

  /** Comparisons of the merge loop: one per element taken while both runs are non-empty. */
  function MergeComparisons<T>(xs: seq<T>, ys: seq<T>, key: T -> int): nat
    decreases |xs| + |ys|
  {
    if xs == [] || ys == [] then 0
    else if key(xs[0]) <= key(ys[0]) then 1 + MergeComparisons(xs[1..], ys, key)
    else 1 + MergeComparisons(xs, ys[1..], key)
  }

  /** Comparisons of a top-down merge sort: those of its two halves and of their merge. */
  function MergeSortComparisons<T>(s: seq<T>, key: T -> int): nat
    decreases |s|
  {
    if |s| <= 1 then 0
    else
      var h := LeftHalf(|s|);
      MergeSortComparisons(s[..h], key) + MergeSortComparisons(s[h..], key)
        + MergeComparisons(MergeSortBy(s[..h], key), MergeSortBy(s[h..], key), key)
  }

  /** The instance the int buffer runs, written with `<=` on the values themselves;
      `IntsAreIdInstance` proves it equal to `MergeBy`, `MergeSortBy` and their counts
      at the key `Id`. */
  function MergeInts(xs: seq<int>, ys: seq<int>): seq<int>
    decreases |xs| + |ys|
  {
    if xs == [] then ys
    else if ys == [] then xs
    else if xs[0] <= ys[0] then [xs[0]] + MergeInts(xs[1..], ys)
    else [ys[0]] + MergeInts(xs, ys[1..])
  }

  function MergeIntsComparisons(xs: seq<int>, ys: seq<int>): nat
    decreases |xs| + |ys|
  {
    if xs == [] || ys == [] then 0
    else if xs[0] <= ys[0] then 1 + MergeIntsComparisons(xs[1..], ys)
    else 1 + MergeIntsComparisons(xs, ys[1..])
  }

  function SortInts(s: seq<int>): seq<int>
    decreases |s|
  {
    if |s| <= 1 then s
    else
      var h := LeftHalf(|s|);
      MergeInts(SortInts(s[..h]), SortInts(s[h..]))
  }

  function SortIntsComparisons(s: seq<int>): nat
    decreases |s|
  {
    if |s| <= 1 then 0
    else
      var h := LeftHalf(|s|);
      SortIntsComparisons(s[..h]) + SortIntsComparisons(s[h..])
        + MergeIntsComparisons(SortInts(s[..h]), SortInts(s[h..]))
  }

  lemma {:induction false} MergeIntsById(xs: seq<int>, ys: seq<int>)
    ensures MergeInts(xs, ys) == MergeBy(xs, ys, Id)
    ensures MergeIntsComparisons(xs, ys) == MergeComparisons(xs, ys, Id)
    decreases |xs| + |ys|
  {
    if xs != [] && ys != [] {
      if xs[0] <= ys[0] { MergeIntsById(xs[1..], ys); }
      else { MergeIntsById(xs, ys[1..]); }
    }
  }

  /** The int buffer's merge sort and its comparison count are the generic ones at `Id`. */
  lemma {:induction false} IntsAreIdInstance(s: seq<int>)
    ensures SortInts(s) == MergeSortBy(s, Id)
    ensures SortIntsComparisons(s) == MergeSortComparisons(s, Id)
    decreases |s|
  {
    if |s| > 1 {
      var h := LeftHalf(|s|);
      IntsAreIdInstance(s[..h]);
      IntsAreIdInstance(s[h..]);
      MergeIntsById(SortInts(s[..h]), SortInts(s[h..]));
    }
  }

  function Pow2(k: nat): (p: nat)
    ensures p >= 1
  {
    if k == 0 then 1 else 2 * Pow2(k - 1)
  }

  lemma SortedById(s: seq<int>)
    ensures SortedBy(s, Id) <==> Sorted(s)
  {}

  lemma {:induction false} MergeByLength<T>(xs: seq<T>, ys: seq<T>, key: T -> int)
    ensures |MergeBy(xs, ys, key)| == |xs| + |ys|
    decreases |xs| + |ys|
  {
    if xs != [] && ys != [] {
      if key(xs[0]) <= key(ys[0]) { MergeByLength(xs[1..], ys, key); }
      else { MergeByLength(xs, ys[1..], key); }
    }
  }

  /** Merging loses and invents nothing. */
  lemma {:induction false} MergeByMultiset<T>(xs: seq<T>, ys: seq<T>, key: T -> int)
    ensures multiset(MergeBy(xs, ys, key)) == multiset(xs) + multiset(ys)
    decreases |xs| + |ys|
  {
    if xs != [] && ys != [] {
      if key(xs[0]) <= key(ys[0]) {
        MergeByMultiset(xs[1..], ys, key);
        assert xs == [xs[0]] + xs[1..];
      } else {
        MergeByMultiset(xs, ys[1..], key);
        assert ys == [ys[0]] + ys[1..];
      }
    }
  }

  lemma SortedByCons<T>(x: T, t: seq<T>, key: T -> int)
    requires SortedBy(t, key) && forall e :: e in t ==> key(x) <= key(e)
    ensures SortedBy([x] + t, key)
  {
    var s := [x] + t;
    forall i, j | 0 <= i < j < |s| ensures key(s[i]) <= key(s[j]) {
      assert s[j] == t[j - 1] && s[j] in t;
      if i > 0 { assert s[i] == t[i - 1]; }
    }
  }

  /** Merging two sorted runs gives a sorted run. */
  lemma {:induction false} MergeBySorted<T>(xs: seq<T>, ys: seq<T>, key: T -> int)
    requires SortedBy(xs, key) && SortedBy(ys, key)
    ensures SortedBy(MergeBy(xs, ys, key), key)
    decreases |xs| + |ys|
  {
    if xs != [] && ys != [] {
      if key(xs[0]) <= key(ys[0]) {
        var rest := MergeBy(xs[1..], ys, key);
        MergeBySorted(xs[1..], ys, key);
        MergeByMultiset(xs[1..], ys, key);
        forall e | e in rest ensures key(xs[0]) <= key(e) {
          assert e in multiset(rest);
          if e in xs[1..] {
            var k :| 0 <= k < |xs[1..]| && xs[1..][k] == e;
            assert xs[k + 1] == e;
          } else {
            assert e in ys;
            var k :| 0 <= k < |ys| && ys[k] == e;
          }
        }
        SortedByCons(xs[0], rest, key);
      } else {
        var rest := MergeBy(xs, ys[1..], key);
        MergeBySorted(xs, ys[1..], key);
        MergeByMultiset(xs, ys[1..], key);
        forall e | e in rest ensures key(ys[0]) <= key(e) {
          assert e in multiset(rest);
          if e in ys[1..] {
            var k :| 0 <= k < |ys[1..]| && ys[1..][k] == e;
            assert ys[k + 1] == e;
          } else {
            assert e in xs;
            var k :| 0 <= k < |xs| && xs[k] == e;
          }
        }
        SortedByCons(ys[0], rest, key);
      }
    }
  }

  lemma {:induction false} FilterAppend<T>(a: seq<T>, b: seq<T>, key: T -> int, k: int)
    ensures Filter(a + b, key, k) == Filter(a, key, k) + Filter(b, key, k)
  {
    if a != [] {
      assert (a + b)[1..] == a[1..] + b;
      FilterAppend(a[1..], b, key, k);
    } else {
      assert a + b == b;
    }
  }

  /** No element of a sorted run whose head key exceeds `k` has key `k`. */
  lemma {:induction false} FilterAbove<T>(s: seq<T>, key: T -> int, k: int)
    requires SortedBy(s, key) && s != [] && k < key(s[0])
    ensures Filter(s, key, k) == []
  {
    if |s| > 1 {
      assert SortedBy(s[1..], key);
      assert key(s[0]) <= key(s[1]);
      FilterAbove(s[1..], key, k);
    }
  }

  /** Stability of the merge step: among equal keys, the left run's elements come
      first and each run keeps its own order. */
  lemma {:induction false} MergeByStable<T>(xs: seq<T>, ys: seq<T>, key: T -> int, k: int)
    requires SortedBy(xs, key) && SortedBy(ys, key)
    ensures Filter(MergeBy(xs, ys, key), key, k) == Filter(xs, key, k) + Filter(ys, key, k)
    decreases |xs| + |ys|
  {
    if xs == [] {
      assert Filter(xs, key, k) == [];
    } else if ys == [] {
      assert Filter(ys, key, k) == [];
    } else if key(xs[0]) <= key(ys[0]) {
      assert SortedBy(xs[1..], key);
      MergeByStable(xs[1..], ys, key, k);
      StableTakeLeft(xs, ys, key, k);
    } else {
      assert SortedBy(ys[1..], key);
      MergeByStable(xs, ys[1..], key, k);
      StableTakeRight(xs, ys, key, k);
    }
  }

  /** The merge step taking the left head keeps it ahead of the rest of both runs. */
  lemma StableTakeLeft<T>(xs: seq<T>, ys: seq<T>, key: T -> int, k: int)
    requires xs != [] && ys != [] && key(xs[0]) <= key(ys[0])
    requires Filter(MergeBy(xs[1..], ys, key), key, k) == Filter(xs[1..], key, k) + Filter(ys, key, k)
    ensures Filter(MergeBy(xs, ys, key), key, k) == Filter(xs, key, k) + Filter(ys, key, k)
  {
    var head, rest := [xs[0]], MergeBy(xs[1..], ys, key);
    assert MergeBy(xs, ys, key) == head + rest;
    FilterAppend(head, rest, key, k);
    HeadTail(xs);
    FilterAppend(head, xs[1..], key, k);
    AppendAssociative(Filter(head, key, k), Filter(xs[1..], key, k), Filter(ys, key, k));
  }

  lemma HeadTail<T>(s: seq<T>)
    requires s != []
    ensures [s[0]] + s[1..] == s
  {}

  /** The merge step taking the right head, whose key is below every key of the sorted
      left run, so no element of that key is overtaken. */
  lemma StableTakeRight<T>(xs: seq<T>, ys: seq<T>, key: T -> int, k: int)
    requires xs != [] && ys != [] && key(ys[0]) < key(xs[0]) && SortedBy(xs, key)
    requires Filter(MergeBy(xs, ys[1..], key), key, k) == Filter(xs, key, k) + Filter(ys[1..], key, k)
    ensures Filter(MergeBy(xs, ys, key), key, k) == Filter(xs, key, k) + Filter(ys, key, k)
  {
    var head, rest := [ys[0]], MergeBy(xs, ys[1..], key);
    assert MergeBy(xs, ys, key) == head + rest;
    FilterAppend(head, rest, key, k);
    HeadTail(ys);
    FilterAppend(head, ys[1..], key, k);
    var fh, fx, fy := Filter(head, key, k), Filter(xs, key, k), Filter(ys[1..], key, k);
    if key(ys[0]) == k {
      FilterAbove(xs, key, k);
      AppendEmpty(fy);
      AppendEmpty(fh + fy);
    } else {
      assert fh == [];
      AppendEmpty(fx + fy);
      AppendEmpty(fy);
    }
  }

  lemma AppendEmpty<T>(a: seq<T>)
    ensures [] + a == a
  {}

  /** Merge sort is a permutation. */
  lemma {:induction false} MergeSortByMultiset<T>(s: seq<T>, key: T -> int)
    ensures multiset(MergeSortBy(s, key)) == multiset(s)
    decreases |s|
  {
    if |s| > 1 {
      var h := LeftHalf(|s|);
      var left, right := s[..h], s[h..];
      MergeSortByMultiset(left, key);
      MergeSortByMultiset(right, key);
      MergeByMultiset(MergeSortBy(left, key), MergeSortBy(right, key), key);
      assert MergeSortBy(s, key) == MergeBy(MergeSortBy(left, key), MergeSortBy(right, key), key);
      assert s == left + right;
      assert multiset(s) == multiset(left) + multiset(right);
    }
  }

  /** Merge sort sorts. */
  lemma {:induction false} MergeSortBySorted<T>(s: seq<T>, key: T -> int)
    ensures SortedBy(MergeSortBy(s, key), key)
    decreases |s|
  {
    if |s| > 1 {
      var h := LeftHalf(|s|);
      MergeSortBySorted(s[..h], key);
      MergeSortBySorted(s[h..], key);
      MergeBySorted(MergeSortBy(s[..h], key), MergeSortBy(s[h..], key), key);
    }
  }

  /** Merge sort is stable: the elements of each key appear in input order. */
  lemma {:induction false} MergeSortByStable<T>(s: seq<T>, key: T -> int, k: int)
    ensures Filter(MergeSortBy(s, key), key, k) == Filter(s, key, k)
    decreases |s|
  {
    if |s| > 1 {
      var h := LeftHalf(|s|);
      MergeSortByStable(s[..h], key, k);
      MergeSortByStable(s[h..], key, k);
      MergeSortBySorted(s[..h], key);
      MergeSortBySorted(s[h..], key);
      MergeByStable(MergeSortBy(s[..h], key), MergeSortBy(s[h..], key), key, k);
      assert s == s[..h] + s[h..];
      FilterAppend(s[..h], s[h..], key, k);
    }
  }

  /** On 2^k cells the merge sort writes exactly k * 2^k cells. */
  lemma {:induction false} MergeSortWritesPow2(k: nat)
    ensures MergeSortWrites(Pow2(k)) == k * Pow2(k)
  {
    if k > 0 {
      var p, n := Pow2(k - 1), Pow2(k);
      assert n == p + p;
      WritesDouble(p);
      MergeSortWritesPow2(k - 1);
      DoubleWrites(k, p, n, MergeSortWrites(p), MergeSortWrites(n));
    }
  }

  /** Cells 0..2p-1 split into two runs of p. */
  lemma WritesDouble(p: nat)
    requires p >= 1
    ensures MergeSortWrites(p + p) == p + p + MergeSortWrites(p) + MergeSortWrites(p)
  {
    HalveDouble(p);
  }

  lemma HalveDouble(p: nat)
    requires p >= 1
    ensures LeftHalf(p + p) == p && p + p - LeftHalf(p + p) == p
  {}

  /** Two runs of p cells, each written k - 1 times over, and one merge of both. */
  lemma DoubleWrites(k: int, p: int, n: int, w: int, total: int)
    requires n == p + p && w == (k - 1) * p && total == n + w + w
    ensures total == k * n
  {}

  /** The merge loop compares at least until the shorter run is used up, and at most
      once per element but the last. */
  lemma {:induction false} MergeComparisonsBounds<T>(xs: seq<T>, ys: seq<T>, key: T -> int)
    ensures (if |xs| <= |ys| then |xs| else |ys|) <= MergeComparisons(xs, ys, key)
    ensures MergeComparisons(xs, ys, key) <= |xs| + |ys|
    ensures xs != [] || ys != [] ==> MergeComparisons(xs, ys, key) < |xs| + |ys|
    decreases |xs| + |ys|
  {
    if xs != [] && ys != [] {
      if key(xs[0]) <= key(ys[0]) { MergeComparisonsBounds(xs[1..], ys, key); }
      else { MergeComparisonsBounds(xs, ys[1..], key); }
    }
  }

  lemma {:induction false} MergeSortByLength<T>(s: seq<T>, key: T -> int)
    ensures |MergeSortBy(s, key)| == |s|
  {
    MergeSortByMultiset(s, key);
    assert |multiset(MergeSortBy(s, key))| == |multiset(s)|;
  }

  /** A merge sort of n > 0 cells compares fewer times than it writes: each of its
      n - 1 merges compares at most once less than it writes. */
  lemma {:induction false} MergeSortComparisonsBound<T>(s: seq<T>, key: T -> int)
    ensures MergeSortComparisons(s, key) + |s| <= MergeSortWrites(|s|) + 1
    decreases |s|
  {
    if |s| > 1 {
      var h := LeftHalf(|s|);
      MergeSortComparisonsBound(s[..h], key);
      MergeSortComparisonsBound(s[h..], key);
      MergeSortByLength(s[..h], key);
      MergeSortByLength(s[h..], key);
      MergeComparisonsBounds(MergeSortBy(s[..h], key), MergeSortBy(s[h..], key), key);
    }
  }
}
