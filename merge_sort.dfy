/** `merge_sort` and its two helpers, on an int buffer. */
module MergeSorting {
  import opened Order
  import opened MergeSpec

  /** `merge_sort`: top-down merge sort of cells 0..size-1; it computes exactly the
      functional merge sort of the old contents, whose comparisons it counts, and
      writes every cell of every merged range once. */
  method MergeSort(a: array<int>, comparison: nat, assignment: nat)
    returns (comparison': nat, assignment': nat)
    modifies a
    ensures a[..] == MergeSortBy(old(a[..]), Id)
    ensures Sorted(a[..]) && multiset(a[..]) == multiset(old(a[..]))
    ensures comparison' == comparison + MergeSortComparisons(old(a[..]), Id)
    ensures assignment' == assignment + MergeSortWrites(a.Length)
  {
    comparison', assignment' := MergeSortRange(a, 0, a.Length - 1, comparison, assignment);
    MergeSortWhole(a[..], old(a[..]));
  }

  lemma MergeSortWhole(t: seq<int>, s0: seq<int>)
    requires MergeSortedAt(t, s0, 0, |t| - 1)
    ensures t == MergeSortBy(s0, Id) && Sorted(t) && multiset(t) == multiset(s0)
    ensures SortIntsComparisons(s0[0..|t|]) == MergeSortComparisons(s0, Id)
  {
    assert t == t[0..|t|] && s0 == s0[0..|s0|];
    IntsAreIdInstance(s0);
    MergeSortBySorted(s0, Id);
    SortedById(t);
    MergeSortByMultiset(s0, Id);
  }

  /** Cells l..r of `t` hold the merge sort of those of `s0`; other cells are as in `s0`. */
  ghost predicate MergeSortedAt(t: seq<int>, s0: seq<int>, l: int, r: int) {
    0 <= l <= r + 1 <= |t| == |s0| && t[l..r + 1] == SortInts(s0[l..r + 1])
    && t[..l] == s0[..l] && t[r + 1..] == s0[r + 1..]
  }

  /** Cells p..r of `t` hold the merge of the runs p..q and q+1..r of `s0`; other cells
      are as in `s0`. */
  ghost predicate MergedAt(t: seq<int>, s0: seq<int>, p: int, q: int, r: int) {
    0 <= p <= q < r < |t| == |s0| && t[p..r + 1] == MergeInts(s0[p..q + 1], s0[q + 1..r + 1])
    && t[..p] == s0[..p] && t[r + 1..] == s0[r + 1..]
  }

  /** `merge_sort_helper_1`: sorts cells l..r, splitting at m = l + (r - l) / 2. */
  method MergeSortRange(a: array<int>, l: int, r: int, comparison: nat, assignment: nat)
    returns (comparison': nat, assignment': nat)
    requires 0 <= l <= r + 1 <= a.Length
    modifies a
    ensures MergeSortedAt(a[..], old(a[..]), l, r)
    ensures comparison' == comparison + SortIntsComparisons(old(a[..])[l..r + 1])
    ensures assignment' == assignment + MergeSortWrites(r - l + 1)
    decreases r - l, 1
  {
    if l < r {
      comparison', assignment' := MergeSortSplit(a, l, r, comparison, assignment);
    } else {
      comparison', assignment' := comparison, assignment;
      MergeSortShort(a[..], l, r);
    }
  }

  /** The recursive case of `merge_sort_helper_1`: both halves, then their merge. */
  method MergeSortSplit(a: array<int>, l: int, r: int, comparison: nat, assignment: nat)
    returns (comparison': nat, assignment': nat)
    requires 0 <= l < r < a.Length
    modifies a
    ensures MergeSortedAt(a[..], old(a[..]), l, r)
    ensures comparison' == comparison + SortIntsComparisons(old(a[..])[l..r + 1])
    ensures assignment' == assignment + MergeSortWrites(r - l + 1)
    decreases r - l, 0
  {
    ghost var s0 := a[..];
    var m := l + (r - l) / 2;
    var c1, a1 := MergeSortRange(a, l, m, comparison, assignment);
    ghost var s1 := a[..];
    var c2, a2 := MergeSortRange(a, m + 1, r, c1, a1);
    ghost var s2 := a[..];
    comparison', assignment' := Merge(a, l, m, r, c2, a2);
    ghost var s3 := a[..];
    MergeSortStep(s0, s1, s2, s3, l, m, r, comparison, c1, c2, comparison', assignment, a1, a2, assignment');
  }

  /** The counters and contents after the two recursive calls and the merge of
      `merge_sort_helper_1`, stated on snapshots of the buffer. */
  lemma MergeSortStep(s0: seq<int>, s1: seq<int>, s2: seq<int>, s3: seq<int>, l: int, m: int, r: int,
    c0: nat, c1: nat, c2: nat, c3: nat, w0: nat, w1: nat, w2: nat, w3: nat)
    requires l < r && m == l + (r - l) / 2 && |s0| > r
    requires MergeSortedAt(s1, s0, l, m) && c1 == c0 + SortIntsComparisons(s0[l..m + 1]) && w1 == w0 + MergeSortWrites(m - l + 1)
    requires MergeSortedAt(s2, s1, m + 1, r) && c2 == c1 + SortIntsComparisons(s1[m + 1..r + 1]) && w2 == w1 + MergeSortWrites(r - (m + 1) + 1)
    requires MergedAt(s3, s2, l, m, r) && c3 == c2 + MergeIntsComparisons(s2[l..m + 1], s2[m + 1..r + 1]) && w3 == w2 + (r - l + 1)
    ensures MergeSortedAt(s3, s0, l, r)
    ensures c3 == c0 + SortIntsComparisons(s0[l..r + 1])
    ensures w3 == w0 + MergeSortWrites(r - l + 1)
  {
    MergeSortCombine(s0, s1, s2, s3, l, m, r);
    WritesAt(l, m, r);
  }

  lemma MergeSortShort(t: seq<int>, l: int, r: int)
    requires 0 <= l <= r + 1 <= |t| && r <= l
    ensures MergeSortedAt(t, t, l, r) && SortIntsComparisons(t[l..r + 1]) == 0
  {}

  /** Gluing the two recursive calls of `merge_sort_helper_1` and their merge. */
  lemma MergeSortCombine(s0: seq<int>, s1: seq<int>, s2: seq<int>, s3: seq<int>, l: int, m: int, r: int)
    requires l <= m < r && m == l + (r - l) / 2
    requires MergeSortedAt(s1, s0, l, m) && MergeSortedAt(s2, s1, m + 1, r) && MergedAt(s3, s2, l, m, r)
    ensures MergeSortedAt(s3, s0, l, r)
    ensures SortIntsComparisons(s0[l..r + 1])
      == SortIntsComparisons(s0[l..m + 1]) + SortIntsComparisons(s1[m + 1..r + 1])
         + MergeIntsComparisons(s2[l..m + 1], s2[m + 1..r + 1])
  {
    SplitAtMiddle(s0, l, m, r);
    SortSplit(s0[l..r + 1], s0[l..m + 1], s0[m + 1..r + 1]);
    CountSplit(s0[l..r + 1], s0[l..m + 1], s0[m + 1..r + 1]);
    SameFrom(s1, s0, m + 1, m + 1, r + 1);
    SameBefore(s2, s1, m + 1, l, m + 1);
    OutsideKept(s0, s1, s2, s3, l, m, r);
  }

  /** The halves `merge_sort_helper_1` recurses on are those of `MergeSortBy`. */
  lemma SplitAtMiddle(s: seq<int>, l: int, m: int, r: int)
    requires 0 <= l <= m < r < |s| && m == l + (r - l) / 2
    ensures LeftHalf(r - l + 1) == m - l + 1
    ensures s[l..r + 1][..m - l + 1] == s[l..m + 1] && s[l..r + 1][m - l + 1..] == s[m + 1..r + 1]
  {}

  /** One level of the functional merge sort. */
  lemma SortSplit(w: seq<int>, left: seq<int>, right: seq<int>)
    requires |w| >= 2 && left == w[..LeftHalf(|w|)] && right == w[LeftHalf(|w|)..]
    ensures SortInts(w) == MergeInts(SortInts(left), SortInts(right))
  {}

  /** One level of the merge sort's comparison count. */
  lemma CountSplit(w: seq<int>, left: seq<int>, right: seq<int>)
    requires |w| >= 2 && left == w[..LeftHalf(|w|)] && right == w[LeftHalf(|w|)..]
    ensures SortIntsComparisons(w)
      == SortIntsComparisons(left) + SortIntsComparisons(right)
         + MergeIntsComparisons(SortInts(left), SortInts(right))
  {}

  /** The write count of `merge_sort_helper_1` on l..r, split at its middle m. */
  lemma WritesAt(l: int, m: int, r: int)
    requires l <= m < r && m == l + (r - l) / 2
    ensures MergeSortWrites(r - l + 1) == MergeSortWrites(m - l + 1) + MergeSortWrites(r - (m + 1) + 1) + (r - l + 1)
  {
    WritesSplit(r - l + 1, m - l + 1, r - m);
  }

  /** One level of the merge sort's write count. */
  lemma WritesSplit(n: int, h: int, k: int)
    requires n >= 2 && h == LeftHalf(n) && k == n - h
    ensures MergeSortWrites(n) == MergeSortWrites(h) + MergeSortWrites(k) + n
  {}

  lemma OutsideKept(s0: seq<int>, s1: seq<int>, s2: seq<int>, s3: seq<int>, l: int, m: int, r: int)
    requires 0 <= l <= m < r < |s0| == |s1| == |s2| == |s3|
    requires s1[..l] == s0[..l] && s1[m + 1..] == s0[m + 1..]
    requires s2[..m + 1] == s1[..m + 1] && s2[r + 1..] == s1[r + 1..]
    requires s3[..l] == s2[..l] && s3[r + 1..] == s2[r + 1..]
    ensures s3[..l] == s0[..l] && s3[r + 1..] == s0[r + 1..]
  {
    SameBefore(s2, s1, m + 1, 0, l);
    SameFrom(s1, s0, m + 1, r + 1, |s0|);
    assert s2[..l] == s2[0..l] && s1[..l] == s1[0..l];
    assert s1[r + 1..] == s1[r + 1..|s0|] && s0[r + 1..] == s0[r + 1..|s0|];
  }

  /** `merge_sort_helper_2`: copies cells p..q into L and q+1..r into M, then merges
      them back into p..r, taking from L on ties. */
  method Merge(a: array<int>, p: int, q: int, r: int, comparison: nat, assignment: nat)
    returns (comparison': nat, assignment': nat)
    requires 0 <= p <= q < r < a.Length
    modifies a
    ensures MergedAt(a[..], old(a[..]), p, q, r)
    ensures comparison' == comparison + MergeIntsComparisons(old(a[..])[p..q + 1], old(a[..])[q + 1..r + 1])
    ensures assignment' == assignment + (r - p + 1)
  {
    var L := CopyRun(a, p, q - p + 1);
    var M := CopyRun(a, q + 1, r - q);
    comparison', assignment' := MergeBack(a, p, q, r, L, M, comparison, assignment);
  }

  /** The `push_back` loops of `merge_sort_helper_2`: a copy of cells lo..lo+n-1. */
  method CopyRun(a: array<int>, lo: int, n: int) returns (run: seq<int>)
    requires 0 <= lo && 0 <= n && lo + n <= a.Length
    ensures run == a[lo..lo + n]
  {
    run := [];
    var i := 0;
    while i < n
      invariant 0 <= i <= n && run == a[lo..lo + i]
    {
      run := run + [a[lo + i]];
      i := i + 1;
    }
  }

  /** The three merge loops of `merge_sort_helper_2`, writing L and M back into p..r. */
  method MergeBack(a: array<int>, p: int, q: int, r: int, L: seq<int>, M: seq<int>, comparison: nat, assignment: nat)
    returns (comparison': nat, assignment': nat)
    requires 0 <= p <= q < r < a.Length && L == a[p..q + 1] && M == a[q + 1..r + 1]
    modifies a
    ensures MergedAt(a[..], old(a[..]), p, q, r)
    ensures comparison' == comparison + MergeIntsComparisons(L, M)
    ensures assignment' == assignment + (r - p + 1)
  {
    ghost var s0 := a[..];
    MergeStart(s0, p, q, r, L, M);
    var i, j;
    i, j, comparison', assignment' := MergeBoth(a, p, q, r, L, M, s0, comparison, assignment);
    MergeExhausted(L, M, i, j);
    i, assignment' := DrainLeft(a, p, q, r, L, M, s0, i, j, assignment');
    j, assignment' := DrainRight(a, p, q, r, L, M, s0, i, j, assignment');
    MergeDone(a[..], s0, p, q, r, L, M, i, j);
  }

  /** The first merge loop: while both runs have elements left, take the smaller head,
      the left one on a tie, counting a comparison and an assignment each time. */
  method MergeBoth(a: array<int>, p: int, q: int, r: int, L: seq<int>, M: seq<int>, ghost s0: seq<int>,
                   comparison: nat, assignment: nat)
    returns (i: int, j: int, comparison': nat, assignment': nat)
    requires Merging(a[..], s0, p, q, r, L, M, 0, 0)
    modifies a
    ensures Merging(a[..], s0, p, q, r, L, M, i, j) && (i == |L| || j == |M|)
    ensures MergeIntsComparisons(L, M) == i + j + MergeIntsComparisons(L[i..], M[j..])
    ensures comparison' == comparison + i + j && assignment' == assignment + i + j
  {
    comparison', assignment' := comparison, assignment;
    i, j := 0, 0;
    var k := p;
    assert L[0..] == L && M[0..] == M;
    while i < |L| && j < |M|
      invariant Merging(a[..], s0, p, q, r, L, M, i, j) && k == p + i + j
      invariant Counted(L, M, i, j, comparison, comparison', assignment, assignment')
    {
      if L[i] <= M[j] {
        i, comparison', assignment' := WriteLeft(a, p, q, r, L, M, s0, i, j, comparison, comparison', assignment, assignment');
      } else {
        j, comparison', assignment' := WriteRight(a, p, q, r, L, M, s0, i, j, comparison, comparison', assignment, assignment');
      }
      k := k + 1;
    }
  }

  /** `vec[k] = L[i]; i++;` with its comparison and assignment. */
  method WriteLeft(a: array<int>, p: int, q: int, r: int, L: seq<int>, M: seq<int>, ghost s0: seq<int>, i: int, j: int,
                   ghost c0: int, c: nat, ghost w0: int, w: nat)
    returns (i': int, c': nat, w': nat)
    requires Merging(a[..], s0, p, q, r, L, M, i, j) && Counted(L, M, i, j, c0, c, w0, w)
    requires i < |L| && j < |M| && L[i] <= M[j]
    modifies a
    ensures Merging(a[..], s0, p, q, r, L, M, i', j) && Counted(L, M, i', j, c0, c', w0, w') && i' == i + 1
  {
    ghost var t := a[..];
    BothLeft(t, s0, p, q, r, L, M, i, j, c0, c, w0, w);
    a[p + i + j] := L[i];
    assert a[..] == t[p + i + j := L[i]];
    i', c', w' := i + 1, c + 1, w + 1;
  }

  /** `vec[k] = M[j]; j++;` with its comparison and assignment. */
  method WriteRight(a: array<int>, p: int, q: int, r: int, L: seq<int>, M: seq<int>, ghost s0: seq<int>, i: int, j: int,
                    ghost c0: int, c: nat, ghost w0: int, w: nat)
    returns (j': int, c': nat, w': nat)
    requires Merging(a[..], s0, p, q, r, L, M, i, j) && Counted(L, M, i, j, c0, c, w0, w)
    requires i < |L| && j < |M| && M[j] < L[i]
    modifies a
    ensures Merging(a[..], s0, p, q, r, L, M, i, j') && Counted(L, M, i, j', c0, c', w0, w') && j' == j + 1
  {
    ghost var t := a[..];
    BothRight(t, s0, p, q, r, L, M, i, j, c0, c, w0, w);
    a[p + i + j] := M[j];
    assert a[..] == t[p + i + j := M[j]];
    j', c', w' := j + 1, c + 1, w + 1;
  }

  /** The counters of the first merge loop after i + j steps. */
  ghost predicate Counted(L: seq<int>, M: seq<int>, i: int, j: int, c0: int, c: int, w0: int, w: int) {
    0 <= i <= |L| && 0 <= j <= |M|
    && MergeIntsComparisons(L, M) == i + j + MergeIntsComparisons(L[i..], M[j..])
    && c == c0 + i + j && w == w0 + i + j
  }

  /** One step of the first merge loop when the left head is not larger: one
      comparison, and the left head written. */
  lemma BothLeft(t: seq<int>, s0: seq<int>, p: int, q: int, r: int, L: seq<int>, M: seq<int>, i: int, j: int,
                 c0: int, c: int, w0: int, w: int)
    requires Merging(t, s0, p, q, r, L, M, i, j) && Counted(L, M, i, j, c0, c, w0, w)
    requires i < |L| && j < |M| && L[i] <= M[j]
    ensures Merging(t[p + i + j := L[i]], s0, p, q, r, L, M, i + 1, j)
    ensures Counted(L, M, i + 1, j, c0, c + 1, w0, w + 1)
  {
    CompareHeads(L, M, i, j);
    TakeLeft(t, s0, p, q, r, L, M, i, j);
  }

  /** One step of the first merge loop when the right head is smaller: one comparison,
      and the right head written. */
  lemma BothRight(t: seq<int>, s0: seq<int>, p: int, q: int, r: int, L: seq<int>, M: seq<int>, i: int, j: int,
                  c0: int, c: int, w0: int, w: int)
    requires Merging(t, s0, p, q, r, L, M, i, j) && Counted(L, M, i, j, c0, c, w0, w)
    requires i < |L| && j < |M| && M[j] < L[i]
    ensures Merging(t[p + i + j := M[j]], s0, p, q, r, L, M, i, j + 1)
    ensures Counted(L, M, i, j + 1, c0, c + 1, w0, w + 1)
  {
    CompareHeads(L, M, i, j);
    TakeRight(t, s0, p, q, r, L, M, i, j);
  }

  /** The second merge loop: copies what is left of L, one assignment per element. */
  method DrainLeft(a: array<int>, p: int, q: int, r: int, L: seq<int>, M: seq<int>, ghost s0: seq<int>,
                   i0: int, j: int, assignment: nat)
    returns (i: int, assignment': nat)
    requires Merging(a[..], s0, p, q, r, L, M, i0, j) && (i0 == |L| || j == |M|)
    modifies a
    ensures Merging(a[..], s0, p, q, r, L, M, i, j) && i == |L|
    ensures assignment' == assignment + (i - i0)
  {
    assignment' := assignment;
    i := i0;
    while i < |L|
      invariant Merging(a[..], s0, p, q, r, L, M, i, j) && (i == |L| || j == |M|)
      invariant assignment' == assignment + (i - i0)
    {
      assignment' := assignment' + 1;
      ghost var t := a[..];
      TakeLeft(t, s0, p, q, r, L, M, i, j);
      a[p + i + j] := L[i];
      assert a[..] == t[p + i + j := L[i]];
      i := i + 1;
    }
  }

  /** The third merge loop: copies what is left of M, one assignment per element. */
  method DrainRight(a: array<int>, p: int, q: int, r: int, L: seq<int>, M: seq<int>, ghost s0: seq<int>,
                    i: int, j0: int, assignment: nat)
    returns (j: int, assignment': nat)
    requires Merging(a[..], s0, p, q, r, L, M, i, j0) && i == |L|
    modifies a
    ensures Merging(a[..], s0, p, q, r, L, M, i, j) && j == |M|
    ensures assignment' == assignment + (j - j0)
  {
    assignment' := assignment;
    j := j0;
    while j < |M|
      invariant Merging(a[..], s0, p, q, r, L, M, i, j)
      invariant assignment' == assignment + (j - j0)
    {
      assignment' := assignment' + 1;
      ghost var t := a[..];
      TakeRight(t, s0, p, q, r, L, M, i, j);
      a[p + i + j] := M[j];
      assert a[..] == t[p + i + j := M[j]];
      j := j + 1;
    }
  }

  /** The invariant of the merge loops of `merge_sort_helper_2`: cells p..k-1, k = p + i + j,
      hold the first i + j elements of the merge of L and M, and no cell outside p..r
      changed. */
  ghost predicate Merging(t: seq<int>, s0: seq<int>, p: int, q: int, r: int, L: seq<int>, M: seq<int>, i: int, j: int) {
    0 <= p <= q < r < |t| == |s0| && L == s0[p..q + 1] && M == s0[q + 1..r + 1]
    && 0 <= i <= |L| && 0 <= j <= |M|
    && t[p..p + i + j] + MergeInts(L[i..], M[j..]) == MergeInts(L, M)
    && t[..p] == s0[..p] && t[r + 1..] == s0[r + 1..]
  }

  lemma MergeStart(s0: seq<int>, p: int, q: int, r: int, L: seq<int>, M: seq<int>)
    requires 0 <= p <= q < r < |s0| && L == s0[p..q + 1] && M == s0[q + 1..r + 1]
    ensures Merging(s0, s0, p, q, r, L, M, 0, 0)
  {
    assert L[0..] == L && M[0..] == M;
  }

  lemma TakeLeft(t: seq<int>, s0: seq<int>, p: int, q: int, r: int, L: seq<int>, M: seq<int>, i: int, j: int)
    requires Merging(t, s0, p, q, r, L, M, i, j) && i < |L| && (j == |M| || L[i] <= M[j])
    ensures Merging(t[p + i + j := L[i]], s0, p, q, r, L, M, i + 1, j)
  {
    LeftHead(L, M, i, j);
    PrefixGrows(t, p, p + i + j, p + (i + 1) + j, L[i], MergeInts(L[i..], M[j..]), MergeInts(L[i + 1..], M[j..]),
                MergeInts(L, M));
    UpdateOutside(t, s0, p, r, p + i + j, L[i]);
  }

  lemma TakeRight(t: seq<int>, s0: seq<int>, p: int, q: int, r: int, L: seq<int>, M: seq<int>, i: int, j: int)
    requires Merging(t, s0, p, q, r, L, M, i, j) && j < |M| && (i == |L| || M[j] < L[i])
    ensures Merging(t[p + i + j := M[j]], s0, p, q, r, L, M, i, j + 1)
  {
    RightHead(L, M, i, j);
    PrefixGrows(t, p, p + i + j, p + i + (j + 1), M[j], MergeInts(L[i..], M[j..]), MergeInts(L[i..], M[j + 1..]),
                MergeInts(L, M));
    UpdateOutside(t, s0, p, r, p + i + j, M[j]);
  }

  /** The merge of what is left starts with the left head when it is not larger. */
  lemma LeftHead(L: seq<int>, M: seq<int>, i: int, j: int)
    requires 0 <= i < |L| && 0 <= j <= |M| && (j == |M| || L[i] <= M[j])
    ensures MergeInts(L[i..], M[j..]) == [L[i]] + MergeInts(L[i + 1..], M[j..])
  {
    assert L[i..][1..] == L[i + 1..];
  }

  /** The merge of what is left starts with the right head when it is smaller. */
  lemma RightHead(L: seq<int>, M: seq<int>, i: int, j: int)
    requires 0 <= i <= |L| && 0 <= j < |M| && (i == |L| || M[j] < L[i])
    ensures MergeInts(L[i..], M[j..]) == [M[j]] + MergeInts(L[i..], M[j + 1..])
  {
    assert M[j..][1..] == M[j + 1..];
  }

  /** Writing the next element of the merge at k extends the merged prefix p..k-1 by one,
      to p..e-1 with e = k + 1. */
  lemma PrefixGrows(t: seq<int>, p: int, k: int, e: int, v: int, cur: seq<int>, rest: seq<int>, whole: seq<int>)
    requires 0 <= p <= k < |t| && e == k + 1 && t[p..k] + cur == whole && cur == [v] + rest
    ensures t[k := v][p..e] + rest == whole
  {
    assert t[k := v][p..e] == t[p..k] + [v];
    AppendAssociative(t[p..k], [v], rest);
  }

  /** Writing a cell inside p..r leaves the cells outside it alone. */
  lemma UpdateOutside(t: seq<int>, s0: seq<int>, p: int, r: int, k: int, v: int)
    requires 0 <= p <= k <= r < |t| == |s0| && t[..p] == s0[..p] && t[r + 1..] == s0[r + 1..]
    ensures t[k := v][..p] == s0[..p] && t[k := v][r + 1..] == s0[r + 1..]
  {
    assert t[k := v][..p] == t[..p] && t[k := v][r + 1..] == t[r + 1..];
  }

  /** One comparison of the first merge loop accounts for one step of the merge. */
  lemma CompareHeads(L: seq<int>, M: seq<int>, i: int, j: int)
    requires 0 <= i < |L| && 0 <= j < |M|
    ensures MergeIntsComparisons(L[i..], M[j..])
      == 1 + if L[i] <= M[j] then MergeIntsComparisons(L[i + 1..], M[j..])
             else MergeIntsComparisons(L[i..], M[j + 1..])
  {
    assert L[i..][1..] == L[i + 1..] && M[j..][1..] == M[j + 1..];
  }

  lemma MergeExhausted(L: seq<int>, M: seq<int>, i: int, j: int)
    requires 0 <= i <= |L| && 0 <= j <= |M| && (i == |L| || j == |M|)
    ensures MergeIntsComparisons(L[i..], M[j..]) == 0
  {
    assert L[i..] == [] || M[j..] == [];
  }

  lemma MergeDone(t: seq<int>, s0: seq<int>, p: int, q: int, r: int, L: seq<int>, M: seq<int>, i: int, j: int)
    requires Merging(t, s0, p, q, r, L, M, i, j) && i == |L| && j == |M|
    ensures MergedAt(t, s0, p, q, r) && MergeIntsComparisons(L[i..], M[j..]) == 0
  {
    assert L[i..] == [] && M[j..] == [];
  }
}
