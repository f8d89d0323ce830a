/** Orderings on integer sequences shared by the six sorting routines: sortedness,
    inversions and the adjacent-exchange step that both bubble sort and insertion sort
    are built on. */
module Order {

  /** Non-decreasing order, the order every routine leaves its buffer in. */
  predicate Sorted(s: seq<int>) {
    forall i, j :: 0 <= i < j < |s| ==> s[i] <= s[j]
  }

  /** Number of elements of `t` strictly smaller than `x`. */
  function CountLess(x: int, t: seq<int>): nat {
    if t == [] then 0 else (if t[0] < x then 1 else 0) + CountLess(x, t[1..])
  }

  /** Number of pairs i < j with s[i] > s[j]. */
  function Inversions(s: seq<int>): nat {
    if s == [] then 0 else CountLess(s[0], s[1..]) + Inversions(s[1..])
  }

  /** `s` with cells `i` and `j` exchanged, as `std::swap(vec[i], vec[j])` leaves it. */
  function Swapped(s: seq<int>, i: int, j: int): (r: seq<int>)
    requires 0 <= i < |s| && 0 <= j < |s|
    ensures |r| == |s| && r[i] == s[j] && r[j] == s[i]
    ensures forall k :: 0 <= k < |s| && k != i && k != j ==> r[k] == s[k]
    ensures multiset(r) == multiset(s)
  {
    s[i := s[j]][j := s[i]]
  }

  /** `std::swap(vec[i], vec[j])` on the buffer. */
  method Swap(a: array<int>, i: int, j: int)
    requires 0 <= i < a.Length && 0 <= j < a.Length
    modifies a
    ensures a[..] == Swapped(old(a[..]), i, j)
  {
    a[i], a[j] := a[j], a[i];
  }

  /** Concatenation regroups freely; stated once for the sequences and strings that are
      built up piece by piece. */
  lemma AppendAssociative<T>(a: seq<T>, b: seq<T>, c: seq<T>)
    ensures (a + b) + c == a + (b + c)
  {}

  /** Exchanging two cells inside [lo, hi) keeps the multiset of that window. */
  lemma SwappedWindow(s: seq<int>, i: int, j: int, lo: int, hi: int)
    requires 0 <= lo <= i < hi <= |s| && lo <= j < hi
    ensures Swapped(s, i, j)[lo..hi] == Swapped(s[lo..hi], i - lo, j - lo)
    ensures multiset(Swapped(s, i, j)[lo..hi]) == multiset(s[lo..hi])
  {
    assert Swapped(s, i, j)[lo..hi] == Swapped(s[lo..hi], i - lo, j - lo);
  }

  lemma {:induction false} CountLessZero(x: int, t: seq<int>)
    ensures CountLess(x, t) == 0 <==> forall k :: 0 <= k < |t| ==> x <= t[k]
  {
    if t != [] {
      CountLessZero(x, t[1..]);
      assert forall k :: 1 <= k < |t| ==> t[k] == t[1..][k - 1];
    }
  }

  /** Exchanging a neighbouring pair does not change how many elements are below `x`. */
  lemma {:induction false} CountLessSwap(x: int, t: seq<int>, j: int)
    requires 0 <= j < |t| - 1
    ensures CountLess(x, Swapped(t, j, j + 1)) == CountLess(x, t)
  {
    var t' := Swapped(t, j, j + 1);
    if j == 0 {
      assert t'[1..][1..] == t[1..][1..];
    } else {
      assert t'[1..] == Swapped(t[1..], j - 1, j);
      CountLessSwap(x, t[1..], j - 1);
    }
  }

  /** Exchanging an out-of-order neighbouring pair removes exactly one inversion. */
  lemma {:induction false} InversionsSwap(s: seq<int>, j: int)
    requires 0 <= j < |s| - 1 && s[j + 1] < s[j]
    ensures Inversions(Swapped(s, j, j + 1)) + 1 == Inversions(s)
  {
    var s' := Swapped(s, j, j + 1);
    if j == 0 {
      var t := s[2..];
      assert s[1..] == [s[1]] + t && s'[1..] == [s[0]] + t;
      assert s[1..][1..] == t && s'[1..][1..] == t;
    } else {
      assert s'[1..] == Swapped(s[1..], j - 1, j);
      CountLessSwap(s[0], s[1..], j - 1);
      InversionsSwap(s[1..], j - 1);
    }
  }

  /** A sequence is sorted exactly when it has no inversion. */
  lemma {:induction false} SortedIffNoInversions(s: seq<int>)
    ensures Sorted(s) <==> Inversions(s) == 0
  {
    if s != [] {
      SortedIffNoInversions(s[1..]);
      CountLessZero(s[0], s[1..]);
      assert forall k :: 1 <= k < |s| ==> s[k] == s[1..][k - 1];
      if Inversions(s) == 0 {
        assert Sorted(s[1..]);
        forall i, j | 0 <= i < j < |s| ensures s[i] <= s[j] {
          if i > 0 { assert s[1..][i - 1] <= s[1..][j - 1]; }
        }
      }
    }
  }

  /** The five-element input of the end-to-end example has eight inversions. */
  lemma FixtureInversions()
    ensures Inversions([5, 3, 4, 1, 2]) == 8
  {
    var s := [5, 3, 4, 1, 2];
    assert s[1..] == [3, 4, 1, 2] && s[1..][1..] == [4, 1, 2];
    assert [4, 1, 2][1..] == [1, 2] && [1, 2][1..] == [2] && [2][1..] == [];
    assert CountLess(5, [3, 4, 1, 2]) == 4;
    assert CountLess(3, [4, 1, 2]) == 2;
    assert CountLess(4, [1, 2]) == 2;
    assert CountLess(1, [2]) == 0;
  }

  /** [x] + t is sorted when t is sorted and x is at most every element of t. */
  lemma SortedCons(x: int, t: seq<int>)
    requires Sorted(t) && forall k :: 0 <= k < |t| ==> x <= t[k]
    ensures Sorted([x] + t)
  {
    var s := [x] + t;
    forall i, j | 0 <= i < j < |s| ensures s[i] <= s[j] {
      if i > 0 { assert s[i] == t[i - 1] && s[j] == t[j - 1]; } else { assert s[j] == t[j - 1]; }
    }
  }

  /** Two sorted runs separated by a pivot form one sorted run. */
  lemma SortedAroundPivot(l: seq<int>, p: int, r: seq<int>)
    requires Sorted(l) && Sorted(r)
    requires forall x :: x in l ==> x <= p
    requires forall x :: x in r ==> p < x
    ensures Sorted(l + [p] + r)
  {
    var s := l + [p] + r;
    forall i, j | 0 <= i < j < |s| ensures s[i] <= s[j] {
      if j < |l| {
      } else if j == |l| {
        assert s[i] in l;
      } else if i < |l| {
        assert s[i] in l && s[j] == r[j - |l| - 1] && s[j] in r;
      } else if i == |l| {
        assert s[j] == r[j - |l| - 1] && s[j] in r;
      } else {
        assert s[i] == r[i - |l| - 1] && s[j] == r[j - |l| - 1];
      }
    }
  }

  /** Two sequences with equal multisets and equal tails have equal multisets of heads. */
  lemma PrefixMultiset(s: seq<int>, t: seq<int>, n: int)
    requires 0 <= n <= |s| == |t| && multiset(s) == multiset(t) && s[n..] == t[n..]
    ensures multiset(s[..n]) == multiset(t[..n])
  {
    assert s == s[..n] + s[n..] && t == t[..n] + t[n..];
    assert multiset(s) == multiset(s[..n]) + multiset(s[n..]);
    assert multiset(t) == multiset(t[..n]) + multiset(t[n..]);
    assert multiset(s[..n]) == multiset(s) - multiset(s[n..]);
    assert multiset(t[..n]) == multiset(t) - multiset(t[n..]);
  }

  /** A bound on every element carries over to any rearrangement. */
  lemma BoundedByMultiset(s: seq<int>, t: seq<int>, y: int)
    requires multiset(s) == multiset(t) && forall x :: x in t ==> x <= y
    ensures forall x :: x in s ==> x <= y
  {
    forall x | x in s ensures x <= y {
      assert x in multiset(s);
      assert x in multiset(t);
      assert x in t;
    }
  }

  /** Cells before `x` that agree agree on every window ending by `x`. */
  lemma SameBefore(t: seq<int>, u: seq<int>, x: int, lo: int, hi: int)
    requires 0 <= lo <= hi <= x <= |t| && x <= |u| && t[..x] == u[..x]
    ensures t[lo..hi] == u[lo..hi]
  {
    assert t[lo..hi] == t[..x][lo..hi] && u[lo..hi] == u[..x][lo..hi];
  }

  /** Cells from `x` on that agree agree on every window starting from `x`. */
  lemma SameFrom(t: seq<int>, u: seq<int>, x: int, lo: int, hi: int)
    requires 0 <= x <= lo <= hi <= |t| == |u| && t[x..] == u[x..]
    ensures t[lo..hi] == u[lo..hi]
  {
    forall k | lo <= k < hi ensures t[k] == u[k] {
      assert t[k] == t[x..][k - x] && u[k] == u[x..][k - x];
    }
  }
}
