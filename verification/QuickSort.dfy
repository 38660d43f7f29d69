/**
 The quicksort of the benchmark, with the comparator as a parameter. An element goes to the left of the
 pivot when the comparator's result is non-zero.
 */
module QuickSort {
  import opened Relations

  type Comparator = (int, int) -> int

  function Swap(s: seq<int>, i: nat, j: nat): (r: seq<int>)
    requires i < |s| && j < |s|
    ensures |r| == |s|
  {
    s[i := s[j]][j := s[i]]
  }

  /** The partition loop from index `i` on; returns the array and the last index of the left part. */
  function Partition(s: seq<int>, left: nat, i: nat, right: nat, last: nat, cmp: Comparator): (r: (seq<int>, nat))
    requires left <= last < i <= right + 1 && right < |s|
    ensures |r.0| == |s| && last <= r.1 <= right
    decreases right + 1 - i
  {
    if i > right then (s, last)
    else if cmp(s[i], s[left]) != 0 then Partition(Swap(s, last + 1, i), left, i + 1, right, last + 1, cmp)
    else Partition(s, left, i + 1, right, last, cmp)
  }

  /** Middle element to the front, partition, pivot to its final place `last`. */
  function Split(s: seq<int>, left: nat, right: nat, cmp: Comparator): (r: (seq<int>, nat))
    requires left < right < |s|
    ensures |r.0| == |s| && left <= r.1 <= right
  {
    var (parted, last) := Partition(Swap(s, left, (left + right) / 2), left, left + 1, right, left, cmp);
    (Swap(parted, left, last), last)
  }

  /** What the in-place sort leaves in the array. */
  function Sorted(s: seq<int>, left: nat, right: int, cmp: Comparator): (r: seq<int>)
    requires right < |s|
    ensures |r| == |s|
    decreases right - left
  {
    if left >= right then s
    else
      var (split, last) := Split(s, left, right, cmp);
      Sorted(Sorted(split, left, last - 1, cmp), last + 1, right, cmp)
  }

  lemma {:induction false} SortedStep(s: seq<int>, left: nat, right: int, cmp: Comparator)
    requires right < |s|
    ensures left >= right ==> Sorted(s, left, right, cmp) == s
    ensures left < right ==>
      var (split, last) := Split(s, left, right, cmp);
      Sorted(s, left, right, cmp) == Sorted(Sorted(split, left, last - 1, cmp), last + 1, right, cmp)
  {
  }

  method SwapInPlace(v: array<int>, i: nat, j: nat)
    requires i < v.Length && j < v.Length
    modifies v
    ensures v[..] == Swap(old(v[..]), i, j)
  {
    var temp := v[i];
    v[i] := v[j];
    v[j] := temp;
  }

  method PartitionInPlace(v: array<int>, left: nat, right: nat, cmp: Comparator) returns (last: nat)
    requires left < right < v.Length
    modifies v
    ensures (v[..], last) == Partition(old(v[..]), left, left + 1, right, left, cmp)
  {
    last := left;
    for i := left + 1 to right + 1
      invariant left <= last < i
      invariant Partition(old(v[..]), left, left + 1, right, left, cmp) == Partition(v[..], left, i, right, last, cmp)
    {
      if cmp(v[i], v[left]) != 0 {
        last := last + 1;
        SwapInPlace(v, last, i);
      }
    }
  }

  method Qsort(v: array<int>, left: nat, right: int, cmp: Comparator)
    requires right < v.Length
    modifies v
    ensures v[..] == Sorted(old(v[..]), left, right, cmp)
    decreases right - left
  {
    hide Sorted;
    SortedStep(v[..], left, right, cmp);
    if left >= right {
      return;
    }
    SwapInPlace(v, left, (left + right) / 2);
    var last: int := PartitionInPlace(v, left, right, cmp);
    SwapInPlace(v, left, last);
    Qsort(v, left, last - 1, cmp);
    Qsort(v, last + 1, right, cmp);
  }

  // ----- a rearrangement of the range, for every comparator -----

  ghost function Elements(s: seq<int>): multiset<int> { multiset(s) }

  /** `b` is `a` with the elements of lo..hi-1 rearranged among themselves. */
  ghost predicate Rearranged(a: seq<int>, b: seq<int>, lo: int, hi: int) {
    && |a| == |b|
    && Elements(a) == Elements(b)
    && forall k :: 0 <= k < |a| && !(lo <= k < hi) ==> a[k] == b[k]
  }

  lemma {:induction false} SwapRearranges(s: seq<int>, i: nat, j: nat, lo: int, hi: int)
    requires lo <= i < hi && lo <= j < hi && i < |s| && j < |s|
    ensures Rearranged(s, Swap(s, i, j), lo, hi)
  {
  }

  lemma {:induction false} RearrangedTwice(a: seq<int>, b: seq<int>, c: seq<int>, lo: int, hi: int)
    requires Rearranged(a, b, lo, hi) && Rearranged(b, c, lo, hi)
    ensures Rearranged(a, c, lo, hi)
  {
    forall k | 0 <= k < |a| && !(lo <= k < hi) ensures a[k] == c[k] {
      assert a[k] == b[k];
    }
  }

  lemma {:induction false} RearrangedWithin(a: seq<int>, b: seq<int>, lo: int, hi: int, from: int, to: int)
    requires Rearranged(a, b, lo, hi) && from <= lo && hi <= to
    ensures Rearranged(a, b, from, to)
  {
  }

  lemma {:induction false} PartitionRearranges(s: seq<int>, left: nat, i: nat, right: nat, last: nat, cmp: Comparator)
    requires left <= last < i <= right + 1 && right < |s|
    ensures Rearranged(s, Partition(s, left, i, right, last, cmp).0, left + 1, right + 1)
    decreases right + 1 - i
  {
    hide Elements;
    if i > right {
    } else if cmp(s[i], s[left]) != 0 {
      var next := Swap(s, last + 1, i);
      SwapRearranges(s, last + 1, i, left + 1, right + 1);
      PartitionRearranges(next, left, i + 1, right, last + 1, cmp);
      RearrangedTwice(s, next, Partition(next, left, i + 1, right, last + 1, cmp).0, left + 1, right + 1);
    } else {
      PartitionRearranges(s, left, i + 1, right, last, cmp);
    }
  }

  /** Up to the two recursive calls. */
  lemma {:induction false} SplitRearranges(s: seq<int>, left: nat, right: nat, cmp: Comparator)
    requires left < right < |s|
    ensures Rearranged(s, Split(s, left, right, cmp).0, left, right + 1)
  {
    hide Elements;
    var swapped := Swap(s, left, (left + right) / 2);
    var (parted, last) := Partition(swapped, left, left + 1, right, left, cmp);
    SwapRearranges(s, left, (left + right) / 2, left, right + 1);
    PartitionRearranges(swapped, left, left + 1, right, left, cmp);
    RearrangedWithin(swapped, parted, left + 1, right + 1, left, right + 1);
    SwapRearranges(parted, left, last, left, right + 1);
    RearrangedTwice(s, swapped, parted, left, right + 1);
    RearrangedTwice(s, parted, Swap(parted, left, last), left, right + 1);
  }

  /** For every comparator: the range is permuted and everything else is untouched. */
  lemma {:induction false} SortRearranges(s: seq<int>, left: nat, right: int, cmp: Comparator)
    requires right < |s|
    ensures Rearranged(s, Sorted(s, left, right, cmp), left, right + 1)
    decreases right - left
  {
    hide Elements, Sorted;
    SortedStep(s, left, right, cmp);
    if left < right {
      var (split, last) := Split(s, left, right, cmp);
      var half := Sorted(split, left, last - 1, cmp);
      var done := Sorted(half, last + 1, right, cmp);
      SplitRearranges(s, left, right, cmp);
      SortRearranges(split, left, last - 1, cmp);
      SortRearranges(half, last + 1, right, cmp);
      RearrangedWithin(split, half, left, last, left, right + 1);
      RearrangedWithin(half, done, last + 1, right + 1, left, right + 1);
      RearrangedTwice(s, split, half, left, right + 1);
      RearrangedTwice(s, half, done, left, right + 1);
    }
  }

  lemma {:induction false} MultisetSplit(s: seq<int>, lo: nat, hi: nat)
    requires lo <= hi <= |s|
    ensures multiset(s) == multiset(s[..lo]) + multiset(s[lo..hi]) + multiset(s[hi..])
  {
    assert s == s[..lo] + s[lo..hi] + s[hi..];
  }

  /** A rearranged range holds the same elements. */
  lemma {:induction false} RangeMultiset(a: seq<int>, b: seq<int>, lo: nat, hi: nat)
    requires Rearranged(a, b, lo, hi) && lo <= hi <= |a|
    ensures multiset(a[lo..hi]) == multiset(b[lo..hi])
  {
    MultisetSplit(a, lo, hi);
    MultisetSplit(b, lo, hi);
    assert a[..lo] == b[..lo] && a[hi..] == b[hi..];
    CancelBoth(multiset(a[..lo]), multiset(a[lo..hi]), multiset(b[lo..hi]), multiset(a[hi..]));
  }

  lemma {:induction false} CancelBoth(x: multiset<int>, m: multiset<int>, n: multiset<int>, y: multiset<int>)
    requires x + m + y == x + n + y
    ensures m == n
  {
    assert forall e :: (x + m + y)[e] == x[e] + m[e] + y[e];
    assert forall e :: (x + n + y)[e] == x[e] + n[e] + y[e];
  }

  lemma {:induction false} RangeKeeps(a: seq<int>, b: seq<int>, lo: nat, hi: nat, p: int -> bool)
    requires Rearranged(a, b, lo, hi) && lo <= hi <= |a|
    requires forall k :: lo <= k < hi ==> p(a[k])
    ensures forall k :: lo <= k < hi ==> p(b[k])
  {
    RangeMultiset(a, b, lo, hi);
    forall k | lo <= k < hi ensures p(b[k]) {
      assert b[k] == b[lo..hi][k - lo];
      assert b[k] in multiset(a[lo..hi]);
      var m :| 0 <= m < |a[lo..hi]| && a[lo..hi][m] == b[k];
      assert a[lo + m] == b[k];
    }
  }

  // ----- when the range ends sorted -----

  type Order = (int, int) -> bool

  ghost predicate Ascending(s: seq<int>, lo: int, hi: int, le: Order) {
    forall i, j :: 0 <= i < j < |s| && lo <= i && j < hi ==> le(s[i], s[j])
  }

  /** Non-zero only for elements that may come first, zero only for elements that may come second. */
  ghost predicate Consistent(cmp: Comparator, le: Order) {
    forall a, b :: if cmp(a, b) != 0 then le(a, b) else le(b, a)
  }

  /** After the partition loop: the left part compares non-zero with the pivot, the right part zero. */
  lemma {:induction false} PartitionSplits(s: seq<int>, left: nat, i: nat, right: nat, last: nat, cmp: Comparator)
    requires left <= last < i <= right + 1 && right < |s|
    requires forall k :: left < k <= last ==> cmp(s[k], s[left]) != 0
    requires forall k :: last < k < i ==> cmp(s[k], s[left]) == 0
    ensures var (r, l) := Partition(s, left, i, right, last, cmp);
      && r[left] == s[left]
      && (forall k :: left < k <= l ==> cmp(r[k], s[left]) != 0)
      && (forall k :: l < k <= right ==> cmp(r[k], s[left]) == 0)
    decreases right + 1 - i
  {
    if i <= right {
      if cmp(s[i], s[left]) != 0 {
        PartitionSplits(Swap(s, last + 1, i), left, i + 1, right, last + 1, cmp);
      } else {
        PartitionSplits(s, left, i + 1, right, last, cmp);
      }
    }
  }

  lemma {:induction false} JoinedPair(s: seq<int>, left: nat, last: nat, right: nat, le: Order, i: nat, j: nat)
    requires left <= i < j <= right < |s| && last <= right && Transitive(le)
    requires j < last || last < i ==> le(s[i], s[j])
    requires i < last ==> le(s[i], s[last])
    requires last < j ==> le(s[last], s[j])
    ensures le(s[i], s[j])
  {
    var x, y, z := s[i], s[last], s[j];
    if i < last < j {
      assert le(x, y) && le(y, z);
    }
  }

  /** Two sorted parts around a pivot that separates them are sorted together. */
  lemma {:induction false} JoinAscending(s: seq<int>, left: nat, last: nat, right: nat, le: Order)
    requires left <= last <= right < |s| && Transitive(le)
    requires Ascending(s, left, last, le) && Ascending(s, last + 1, right + 1, le)
    requires forall k :: left <= k < last ==> le(s[k], s[last])
    requires forall k :: last < k <= right ==> le(s[last], s[k])
    ensures Ascending(s, left, right + 1, le)
  {
    forall i, j | 0 <= i < j < |s| && left <= i && j < right + 1 ensures le(s[i], s[j]) {
      JoinedPair(s, left, last, right, le, i, j);
    }
  }

  lemma {:induction false} AscendingKept(a: seq<int>, b: seq<int>, lo: int, hi: int, le: Order)
    requires |a| == |b| && Ascending(a, lo, hi, le) && forall k :: 0 <= k < |a| && lo <= k < hi ==> a[k] == b[k]
    ensures Ascending(b, lo, hi, le)
  {
  }

  /** The pivot separates the two parts. */
  lemma {:induction false} SplitSeparates(s: seq<int>, left: nat, right: nat, cmp: Comparator, le: Order)
    requires left < right < |s| && Consistent(cmp, le)
    ensures var (split, last) := Split(s, left, right, cmp);
      && (forall k :: left <= k < last ==> le(split[k], split[last]))
      && (forall k :: last < k <= right ==> le(split[last], split[k]))
  {
    var swapped := Swap(s, left, (left + right) / 2);
    PartitionSplits(swapped, left, left + 1, right, left, cmp);
    var (parted, last) := Partition(swapped, left, left + 1, right, left, cmp);
    SwapSeparates(parted, left, last, right, cmp, le);
  }

  lemma {:induction false} SwapSeparates(parted: seq<int>, left: nat, last: nat, right: nat, cmp: Comparator, le: Order)
    requires left <= last <= right < |parted| && Consistent(cmp, le)
    requires forall k :: left < k <= last ==> cmp(parted[k], parted[left]) != 0
    requires forall k :: last < k <= right ==> cmp(parted[k], parted[left]) == 0
    ensures var split := Swap(parted, left, last);
      && (forall k :: left <= k < last ==> le(split[k], split[last]))
      && (forall k :: last < k <= right ==> le(split[last], split[k]))
  {
    var pivot := parted[left];
    var split := Swap(parted, left, last);
    forall k | left <= k < last ensures le(split[k], pivot) {
      var from := if k == left then last else k;
      assert split[k] == parted[from] && cmp(parted[from], pivot) != 0;
    }
    forall k | last < k <= right ensures le(pivot, split[k]) {
      assert split[k] == parted[k] && cmp(parted[k], pivot) == 0;
    }
  }

  lemma {:induction false} SortSorts(s: seq<int>, left: nat, right: int, cmp: Comparator, le: Order)
    requires right < |s| && Transitive(le) && Consistent(cmp, le)
    ensures Ascending(Sorted(s, left, right, cmp), left, right + 1, le)
    decreases right - left
  {
    hide Sorted;
    SortedStep(s, left, right, cmp);
    if left < right {
      var (split, last) := Split(s, left, right, cmp);
      SplitSeparates(s, left, right, cmp, le);
      SortSorts(split, left, last - 1, cmp, le);
      SortSorts(Sorted(split, left, last - 1, cmp), last + 1, right, cmp, le);
      SortedAroundPivot(split, left, last, right, cmp, le);
    }
  }

  /** Sorting the two sides of a split array keeps the split. */
  lemma {:induction false} SortedAroundPivot(split: seq<int>, left: nat, last: nat, right: nat, cmp: Comparator, le: Order)
    requires left <= last <= right < |split| && Transitive(le)
    requires forall k :: left <= k < last ==> le(split[k], split[last])
    requires forall k :: last < k <= right ==> le(split[last], split[k])
    requires Ascending(Sorted(split, left, last - 1, cmp), left, last, le)
    requires Ascending(Sorted(Sorted(split, left, last - 1, cmp), last + 1, right, cmp), last + 1, right + 1, le)
    ensures Ascending(Sorted(Sorted(split, left, last - 1, cmp), last + 1, right, cmp), left, right + 1, le)
  {
    hide Sorted, Elements;
    var half := Sorted(split, left, last - 1, cmp);
    var done := Sorted(half, last + 1, right, cmp);
    SortRearranges(split, left, last - 1, cmp);
    SortRearranges(half, last + 1, right, cmp);
    RangeKeeps(split, half, left, last, x => le(x, split[last]));
    RangeKeeps(half, done, last + 1, right + 1, x => le(split[last], x));
    AscendingKept(half, done, left, last, le);
    JoinAscending(done, left, last, right, le);
  }

  // ----- exactly when -----

  lemma {:induction false} SortPair(x: int, y: int, cmp: Comparator)
    ensures Sorted([x, y], 0, 1, cmp) == if cmp(y, x) != 0 then [y, x] else [x, y]
  {
    var s := [x, y];
    assert Swap(s, 0, 0) == s;
    if cmp(y, x) != 0 {
      assert Swap(s, 1, 1) == s;
      assert Partition(s, 0, 1, 1, 0, cmp) == Partition(s, 0, 2, 1, 1, cmp) == (s, 1);
      assert Swap(s, 0, 1) == [y, x];
    } else {
      assert Partition(s, 0, 1, 1, 0, cmp) == Partition(s, 0, 2, 1, 0, cmp) == (s, 0);
    }
  }

  ghost predicate SortsAll(cmp: Comparator, le: Order) {
    forall s: seq<int> :: Ascending(Sorted(s, 0, |s| - 1, cmp), 0, |s|, le)
  }

  /** One two-element array for each pair of values tells whether the comparator is consistent. */
  lemma {:induction false} SortsOnlyIfConsistent(cmp: Comparator, le: Order, a: int, b: int)
    requires Ascending(Sorted([b, a], 0, 1, cmp), 0, 2, le)
    ensures if cmp(a, b) != 0 then le(a, b) else le(b, a)
  {
    SortPair(b, a, cmp);
    var r := Sorted([b, a], 0, 1, cmp);
    assert le(r[0], r[1]);
  }

  /** The sort orders every array by a given order exactly when the comparator is consistent with that order. */
  lemma {:induction false} SortsIffConsistent(cmp: Comparator, le: Order)
    requires Transitive(le)
    ensures Consistent(cmp, le) <==> SortsAll(cmp, le)
  {
    hide Ascending, Sorted;
    if Consistent(cmp, le) {
      forall s: seq<int> ensures Ascending(Sorted(s, 0, |s| - 1, cmp), 0, |s|, le) {
        SortSorts(s, 0, |s| - 1, cmp, le);
      }
    }
    if SortsAll(cmp, le) {
      forall a, b ensures if cmp(a, b) != 0 then le(a, b) else le(b, a) {
        var s := [b, a];
        assert Ascending(Sorted(s, 0, |s| - 1, cmp), 0, |s|, le);
        SortsOnlyIfConsistent(cmp, le, a, b);
      }
    }
  }

  ghost predicate StrictWeakOrder(lt: Order) {
    && (forall a, b :: lt(a, b) ==> !lt(b, a))
    && (forall a, b, c :: lt(a, c) ==> lt(a, b) || lt(b, c))
  }

  /** A comparator whose non-zero result means strictly before sorts every range of every array. */
  lemma {:induction false} StrictComparatorSorts(s: seq<int>, left: nat, right: int, cmp: Comparator, lt: Order)
    requires right < |s| && StrictWeakOrder(lt)
    requires forall a, b :: cmp(a, b) != 0 <==> lt(a, b)
    ensures forall i, j :: left <= i < j <= right ==> !lt(Sorted(s, left, right, cmp)[j], Sorted(s, left, right, cmp)[i])
  {
    var le: Order := (a, b) => !lt(b, a);
    forall a, b, c | le(a, b) && le(b, c) ensures le(a, c) {
      assert lt(c, a) ==> lt(c, b) || lt(b, a);
    }
    SortSorts(s, left, right, cmp, le);
    var r := Sorted(s, left, right, cmp);
    forall i, j | left <= i < j <= right ensures !lt(r[j], r[i]) {
      assert le(r[i], r[j]);
    }
  }

  /** The comparator that the benchmark passes. */
  function IntCmp(a: int, b: int): int {
    if a > b then 1 else if a == b then 0 else -1
  }

  /** It is non-zero in both directions, so the benchmark's sort does not sort. */
  lemma {:induction false} IntCmpCounterexample()
    ensures Sorted([1, 2], 0, 1, IntCmp) == [2, 1]
    ensures !Consistent(IntCmp, (a, b) => a <= b)
  {
    SortPair(1, 2, IntCmp);
    var le: Order := (a, b) => a <= b;
    assert IntCmp(2, 1) != 0 && !le(2, 1);
  }
}
