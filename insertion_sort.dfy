/** `insertion_sort` on an int buffer. The inner loop shifts larger cells one place to
    the right until the key's place is found; seen through the key, every shift is an
    exchange of an out-of-order neighbouring pair, so the shifts number exactly the
    inversions of the input. */
module InsertionSorting {
  import opened Order

  /** `insertion_sort`: one comparison and one assignment per shift, and one assignment
      per pass to drop the key into its place. */
  method InsertionSort(a: array<int>, comparison: nat, assignment: nat)
    returns (comparison': nat, assignment': nat)
    modifies a
    ensures Sorted(a[..]) && multiset(a[..]) == multiset(old(a[..]))
    ensures comparison' == comparison + Inversions(old(a[..]))
    ensures assignment' == assignment + Inversions(old(a[..])) + (if a.Length == 0 then 0 else a.Length - 1)
  {
    comparison', assignment' := comparison, assignment;
    ghost var s0 := a[..];
    var i := 1;
    if a.Length > 0 {
      assert a[..1] == [a[0]];
    }
    while i < a.Length
      invariant 1 <= i && (i <= a.Length || i == 1)
      invariant i <= a.Length ==> Sorted(a[..i])
      invariant multiset(a[..]) == multiset(s0)
      invariant comparison + Inversions(s0) == comparison' + Inversions(a[..])
      invariant assignment' == assignment + (comparison' - comparison) + (i - 1)
    {
      comparison', assignment' := InsertKey(a, i, comparison', assignment');
      i := i + 1;
    }
    if a.Length > 0 {
      assert a[..i] == a[..];
    }
    SortedIffNoInversions(a[..]);
  }

  /** One pass of the outer loop: cells 0..i-1 are sorted; the key vec[i] is inserted
      among them, and cells after i are left alone. */
  method InsertKey(a: array<int>, i: int, comparison: nat, assignment: nat)
    returns (comparison': nat, assignment': nat)
    requires 1 <= i < a.Length && Sorted(a[..i])
    modifies a
    ensures Sorted(a[..i + 1]) && a[i + 1..] == old(a[i + 1..])
    ensures multiset(a[..]) == multiset(old(a[..]))
    ensures comparison <= comparison' && Inversions(a[..]) + (comparison' - comparison) == Inversions(old(a[..]))
    ensures assignment' == assignment + (comparison' - comparison) + 1
  {
    comparison', assignment' := comparison, assignment;
    ghost var P := a[..];
    var key := a[i];
    var j := i - 1;
    ghost var L := P;
    InsertStart(P, i);
    while j >= 0 && key < a[j]
      invariant Inserting(L, P, i, j, key) && a[..][j + 1 := key] == L && a.Length == |L|
      invariant multiset(L) == multiset(P)
      invariant Inversions(L) + (i - 1 - j) == Inversions(P)
      invariant comparison' == comparison + (i - 1 - j) && assignment' == assignment + (i - 1 - j)
    {
      comparison' := comparison' + 1;
      assignment' := assignment' + 1;
      ghost var before := a[..];
      a[j + 1] := a[j];
      InversionsSwap(L, j);
      ShiftStep(before, L, P, i, j, key);
      L := Swapped(L, j, j + 1);
      j := j - 1;
    }
    assignment' := assignment' + 1;
    a[j + 1] := key;
    InsertDone(L, P, i, j, key);
  }

  /** The pass's view of the buffer `L`: the buffer `P` at the start of the pass with the
      key P[i] moved left to j+1 past the cells j+1..i-1, all of which exceed it. */
  ghost predicate Inserting(L: seq<int>, P: seq<int>, i: int, j: int, key: int) {
    0 <= i < |P| == |L| && -1 <= j < i && key == P[i] && L[j + 1] == key
    && (forall k :: 0 <= k <= j ==> L[k] == P[k])
    && (forall k :: j + 2 <= k <= i ==> L[k] == P[k - 1] && key < L[k])
    && (forall k :: i < k < |L| ==> L[k] == P[k])
  }

  lemma InsertStart(P: seq<int>, i: int)
    requires 0 <= i < |P|
    ensures Inserting(P, P, i, i - 1, P[i]) && P[..][i := P[i]] == P
  {}

  /** A shift `vec[j + 1] = vec[j]` exchanges the key with the larger cell before it. */
  lemma ShiftStep(before: seq<int>, L: seq<int>, P: seq<int>, i: int, j: int, key: int)
    requires Inserting(L, P, i, j, key) && |before| == |L| && before[j + 1 := key] == L && 0 <= j && key < before[j]
    ensures Inserting(Swapped(L, j, j + 1), P, i, j - 1, key)
    ensures before[j + 1 := before[j]][j := key] == Swapped(L, j, j + 1)
  {
    assert L[j] == before[j];
  }

  /** Once the key meets a cell at most it, or the front, cells 0..i are sorted. */
  lemma InsertDone(L: seq<int>, P: seq<int>, i: int, j: int, key: int)
    requires Inserting(L, P, i, j, key) && Sorted(P[..i]) && (j < 0 || L[j] <= key)
    ensures Sorted(L[..i + 1]) && L[i + 1..] == P[i + 1..]
  {
    forall x, y | 0 <= x < y <= i ensures L[x] <= L[y] {
      assert P[..i][x] == P[x];
      if y <= j {
        assert P[..i][y] == P[y];
      } else if y == j + 1 {
        if x < j { assert P[..i][j] == P[j]; }
      } else if x == j + 1 {
      } else if x <= j {
        assert P[..i][y - 1] == P[y - 1];
      } else {
        assert P[..i][x - 1] == P[x - 1] && P[..i][y - 1] == P[y - 1];
      }
    }
  }

  /** The indices the inner loop's guard `key < vec[j] && j >= 0` reads, as the source
      writes it, from j down, on the buffer `s` of the start of the pass (cells at or
      before j are still unshifted when read). It reads vec[j] before it tests j >= 0,
      so the last index read can be -1. */
  function GuardReadsAsWritten(s: seq<int>, j: int, key: int): (r: seq<int>)
    requires -1 <= j < |s|
    ensures |r| >= 1 && r[0] == j
    ensures forall x :: x in r ==> -1 <= x <= j
    decreases j + 1
  {
    if j < 0 then [j]
    else if key < s[j] then [j] + GuardReadsAsWritten(s, j - 1, key)
    else [j]
  }

  /** The guard as written reads vec[-1] exactly when the key is smaller than every
      cell before it. */
  lemma {:induction false} ReadsBeforeStart(s: seq<int>, j: int, key: int)
    requires -1 <= j < |s|
    ensures -1 in GuardReadsAsWritten(s, j, key) <==> forall k :: 0 <= k <= j ==> key < s[k]
    decreases j + 1
  {
    if j >= 0 {
      ReadsBeforeStart(s, j - 1, key);
      if key < s[j] {
        assert GuardReadsAsWritten(s, j, key) == [j] + GuardReadsAsWritten(s, j - 1, key);
      } else {
        assert GuardReadsAsWritten(s, j, key) == [j];
      }
    }
  }

  /** Inserting the key 1 into [2]: the pass on [2, 1] reads vec[0], then vec[-1]. */
  lemma ReadsBeforeStartFixture()
    ensures GuardReadsAsWritten([2, 1], 0, 1) == [0, -1]
  {
    assert GuardReadsAsWritten([2, 1], -1, 1) == [-1];
  }
}
