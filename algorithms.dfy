/** The six routines as the harness sees them: the `algorithms` bit enumeration, the
    name and routine tables indexed by bit position, and the selection of routines by
    a six-bit `std::bitset`. */
module Sorting {
  import opened Order
  import opened MergeSpec
  import opened SelectionSpec
  import SelectionSorting
  import BubbleSorting
  import QuickSorting
  import MergeSorting
  import InsertionSorting
  import HeapSorting

  const AlgorithmCount := 6

  datatype Algorithm = Selection | Bubble | Quick | Merge | Insertion | Heap

  /** The bit position of a routine, also its index in `algorithm_names` and `functions`. */
  function Index(x: Algorithm): (k: nat)
    ensures k < AlgorithmCount
  {
    match x
    case Selection => 0
    case Bubble => 1
    case Quick => 2
    case Merge => 3
    case Insertion => 4
    case Heap => 5
  }

  function FromIndex(k: nat): (x: Algorithm)
    requires k < AlgorithmCount
    ensures Index(x) == k
  {
    if k == 0 then Selection else if k == 1 then Bubble else if k == 2 then Quick
    else if k == 3 then Merge else if k == 4 then Insertion else Heap
  }

  /** Bit positions and routines are in one-to-one correspondence. */
  lemma IndexRoundTrip(x: Algorithm)
    ensures FromIndex(Index(x)) == x
  {}

  /** `algorithm_names`. */
  function Name(x: Algorithm): (r: string)
    ensures 1 <= |r| <= 9
  {
    match x
    case Selection => "selection"
    case Bubble => "bubble"
    case Quick => "quick"
    case Merge => "merge"
    case Insertion => "insertion"
    case Heap => "heap"
  }

  /** No two routines share a name. */
  lemma NamesDistinct(x: Algorithm, y: Algorithm)
    ensures Name(x) == Name(y) <==> x == y
  {}

  /** The enumerator of a routine, `1L << Index(x)`. */
  function Bit(x: Algorithm): (r: nat)
    ensures r == Pow2(Index(x))
  {
    match x
    case Selection => 1
    case Bubble => 2
    case Quick => 4
    case Merge => 8
    case Insertion => assert Pow2(4) == 2 * Pow2(3); 16
    case Heap => assert Pow2(5) == 2 * Pow2(4) == 4 * Pow2(3); 32
  }

  /** `all`, `(1L << sorting_algorithm_count) - 1`. */
  const All: nat := 63

  /** Bit i of a selection, as `std::bitset::operator[]` reads it: shift right i times,
      then look at the lowest bit. */
  function Selected(select: nat, i: nat): bool
    decreases i
  {
    if i == 0 then select % 2 == 1 else Selected(select / 2, i - 1)
  }

  /** `algorithm_select[i]` is bit i of the selection: the selection divided by 2^i is odd. */
  lemma {:induction false} SelectedBit(select: nat, i: nat)
    ensures Selected(select, i) <==> (select / Pow2(i)) % 2 == 1
    decreases i
  {
    if i > 0 {
      SelectedBit(select / 2, i - 1);
      HalveTwice(select, Pow2(i - 1));
    }
  }

  /** Halving and then dividing by b is dividing by 2b. */
  lemma HalveTwice(a: nat, b: nat)
    requires b > 0
    ensures a / 2 / b == a / (2 * b)
  {
    var q, r := a / (2 * b), a % (2 * b);
    var bq := b * q;
    assert a == 2 * bq + r && 0 <= r < 2 * b;
    var h := a / 2;
    assert h == bq + r / 2;
    DivUnique(h, b, q, r / 2);
  }

  /** Division by a positive b is fixed by quotient and remainder. */
  lemma DivUnique(x: int, b: int, q: int, r: int)
    requires b > 0 && 0 <= r < b && x == b * q + r
    ensures x / b == q
  {
    var q', r' := x / b, x % b;
    assert x == b * q' + r' && 0 <= r' < b;
    var d := q - q';
    assert b * d == r' - r;
    if d >= 1 {
      AtLeastOnce(b, d);
    }
  }

  /** A positive multiple of b is at least b. */
  lemma {:induction false} AtLeastOnce(b: nat, k: int)
    requires k >= 1
    ensures b * k >= b
    decreases k
  {
    if k > 1 {
      AtLeastOnce(b, k - 1);
      assert b * k == b * (k - 1) + b;
    }
  }

  /** The selection with bit i set exactly for the true flags, as `|` of enumerators builds it. */
  function Mask(flags: seq<bool>): (m: nat)
    ensures m < Pow2(|flags|)
    decreases |flags|
  {
    if flags == [] then 0 else (if flags[0] then 1 else 0) + 2 * Mask(flags[1..])
  }

  /** Reading the bits of a mask gives its flags back. */
  lemma {:induction false} MaskSelects(flags: seq<bool>, i: nat)
    requires i < |flags|
    ensures Selected(Mask(flags), i) <==> flags[i]
    decreases i
  {
    var m := Mask(flags);
    assert m % 2 == 1 <==> flags[0];
    if i > 0 {
      assert m / 2 == Mask(flags[1..]);
      MaskSelects(flags[1..], i - 1);
    }
  }

  /** An enumerator selects exactly its own routine. */
  lemma {:induction false} BitSelectsOnlyItself(k: nat, i: nat)
    ensures Selected(Pow2(k), i) <==> i == k
    decreases i
  {
    if k > 0 {
      assert Pow2(k) / 2 == Pow2(k - 1) && Pow2(k) % 2 == 0;
      if i > 0 {
        BitSelectsOnlyItself(k - 1, i - 1);
      }
    } else if i > 0 {
      assert Pow2(0) / 2 == 0;
      SelectedZero(i - 1);
    }
  }

  lemma {:induction false} SelectedZero(i: nat)
    ensures !Selected(0, i)
    decreases i
  {
    if i > 0 {
      SelectedZero(i - 1);
    }
  }

  /** The selection 2^k - 1 has exactly the bits below k set; `all` is the case k = 6. */
  lemma {:induction false} LowBits(k: nat, i: nat)
    ensures Pow2(k) >= 1 && (Selected(Pow2(k) - 1, i) <==> i < k)
    decreases i
  {
    if k == 0 {
      SelectedZero(i);
    } else {
      assert (Pow2(k) - 1) % 2 == 1 && (Pow2(k) - 1) / 2 == Pow2(k - 1) - 1;
      if i > 0 {
        LowBits(k - 1, i - 1);
      }
    }
  }

  /** `all` selects every routine and no bit beyond them. */
  lemma AllSelectsEvery(i: nat)
    ensures Selected(All, i) <==> i < AlgorithmCount
  {
    assert Pow2(6) == 64 by {
      assert Pow2(3) == 8;
    }
    LowBits(AlgorithmCount, i);
  }

  /** `all` is the mask of six true flags. */
  lemma AllIsMask()
    ensures All == Mask([true, true, true, true, true, true])
  {
    var f := [true, true, true, true, true, true];
    assert f[1..] == [true, true, true, true, true];
    assert f[1..][1..] == [true, true, true, true];
    assert f[1..][1..][1..] == [true, true, true];
    assert f[1..][1..][1..][1..] == [true, true];
    assert f[1..][1..][1..][1..][1..] == [true];
    assert f[1..][1..][1..][1..][1..][1..] == [];
  }

  /** The bit positions below n that a selection picks, in the order the harness
      visits the routines. */
  function SelectedBelow(select: nat, n: nat): (r: seq<nat>)
    ensures |r| <= n && forall k :: 0 <= k < |r| ==> r[k] < n
    decreases n
  {
    if n == 0 then [] else SelectedBelow(select, n - 1) + (if Selected(select, n - 1) then [n - 1] else [])
  }

  /** The visited positions are exactly the selected ones below n, in ascending order. */
  lemma {:induction false} SelectedBelowExactly(select: nat, n: nat)
    ensures var r := SelectedBelow(select, n);
      (forall j: nat :: j in r <==> j < n && Selected(select, j))
      && (forall p, q :: 0 <= p < q < |r| ==> r[p] < r[q])
    decreases n
  {
    if n > 0 {
      SelectedBelowExactly(select, n - 1);
      var r := SelectedBelow(select, n - 1);
      assert forall p :: 0 <= p < |r| ==> r[p] in r;
    }
  }

  /** One more bit position visits one more routine exactly when it is selected. */
  lemma SelectedStep(select: nat, n: nat)
    ensures Selected(select, n) ==> SelectedBelow(select, n + 1) == SelectedBelow(select, n) + [n]
    ensures !Selected(select, n) ==> SelectedBelow(select, n + 1) == SelectedBelow(select, n)
  {
    assert SelectedBelow(select, n) + [] == SelectedBelow(select, n);
  }

  /** Looking at fewer bit positions visits a prefix of the same routines. */
  lemma {:induction false} SelectedPrefix(select: nat, m: nat, n: nat)
    requires m <= n
    ensures SelectedBelow(select, m) <= SelectedBelow(select, n)
    decreases n - m
  {
    if m < n {
      SelectedPrefix(select, m, n - 1);
    }
  }

  /** `all` visits the six routines in the order of their bit positions. */
  lemma SelectAll()
    ensures SelectedBelow(All, AlgorithmCount) == [0, 1, 2, 3, 4, 5]
  {
    forall j: nat | j < AlgorithmCount ensures Selected(All, j) {
      AllSelectsEvery(j);
    }
    FullSelection(All, AlgorithmCount);
  }

  lemma FullSelection(select: nat, n: nat)
    requires n == AlgorithmCount && forall j: nat :: j < n ==> Selected(select, j)
    ensures SelectedBelow(select, n) == [0, 1, 2, 3, 4, 5]
  {
    FullBelow(select, n);
    UpToSix(n);
  }

  lemma UpToSix(n: nat)
    requires n == AlgorithmCount
    ensures UpTo(n) == [0, 1, 2, 3, 4, 5]
  {
    assert UpTo(1) == [0] && UpTo(2) == [0, 1] && UpTo(3) == [0, 1, 2];
  }

  /** A selection with every bit below n set visits 0, 1, ..., n - 1. */
  lemma {:induction false} FullBelow(select: nat, n: nat)
    requires forall j: nat :: j < n ==> Selected(select, j)
    ensures SelectedBelow(select, n) == UpTo(n)
  {
    if n > 0 {
      FullBelow(select, n - 1);
      assert Selected(select, n - 1);
    }
  }

  function UpTo(n: nat): seq<nat> {
    if n == 0 then [] else UpTo(n - 1) + [n - 1]
  }

  /** An enumerator alone visits its own routine and nothing else. */
  lemma SelectOne(x: Algorithm)
    ensures SelectedBelow(Bit(x), AlgorithmCount) == [Index(x)]
  {
    var r := SelectedBelow(Bit(x), AlgorithmCount);
    SelectedBelowExactly(Bit(x), AlgorithmCount);
    forall j: nat ensures j in r <==> j == Index(x) {
      BitSelectsOnlyItself(Index(x), j);
    }
    OnlyElement(r, Index(x));
  }

  /** An ascending sequence whose only element is k is [k]. */
  lemma OnlyElement(r: seq<nat>, k: nat)
    requires forall j: nat :: j in r <==> j == k
    requires forall p, q :: 0 <= p < q < |r| ==> r[p] < r[q]
    ensures r == [k]
  {
    assert k in r && r[0] in r && r[|r| - 1] in r;
  }

  /** The routines whose counter deltas are a closed function of the input. */
  predicate Exact(x: Algorithm) {
    x != Quick && x != Heap
  }

  /** What one call of an exactly counted routine adds to `comparison`. */
  function ComparisonDelta(x: Algorithm, s: seq<int>): nat
    requires Exact(x)
  {
    if x == Selection then SelectionComparisons(s)
    else if x == Merge then MergeSortComparisons(s, Id)
    else Inversions(s)
  }

  /** What one call of an exactly counted routine adds to `assignment`. */
  function AssignmentDelta(x: Algorithm, s: seq<int>): nat
    requires Exact(x)
  {
    var passes := if |s| == 0 then 0 else |s| - 1;
    if x == Selection then 2 * passes
    else if x == Bubble then 2 * Inversions(s)
    else if x == Merge then MergeSortWrites(|s|)
    else Inversions(s) + passes
  }

  /** Calling `functions[Index(x)]` on the buffer with size `vec.size()`: the buffer
      ends sorted and a permutation of what it was, both counters only grow, and for
      the exactly counted routines they grow by the routine's deltas. */
  method Run(x: Algorithm, a: array<int>, comparison: nat, assignment: nat)
    returns (comparison': nat, assignment': nat)
    modifies a
    ensures Sorted(a[..]) && multiset(a[..]) == multiset(old(a[..]))
    ensures comparison <= comparison' && assignment <= assignment'
    ensures Exact(x) ==>
      comparison' == comparison + ComparisonDelta(x, old(a[..]))
      && assignment' == assignment + AssignmentDelta(x, old(a[..]))
  {
    match x
    case Selection =>
      comparison', assignment' := SelectionSorting.SelectionSort(a, comparison, assignment);
    case Bubble =>
      comparison', assignment' := BubbleSorting.BubbleSort(a, comparison, assignment);
    case Quick =>
      comparison', assignment' := QuickSorting.QuickSort(a, comparison, assignment);
    case Merge =>
      comparison', assignment' := MergeSorting.MergeSort(a, comparison, assignment);
    case Insertion =>
      comparison', assignment' := InsertionSorting.InsertionSort(a, comparison, assignment);
    case Heap =>
      comparison', assignment' := HeapSorting.HeapSort(a, comparison, assignment);
  }
}
