// quicksort and bubblesort over a comparator (sort.c:43-153).
module Sorting {

  type Comparator<!T> = (T, T) -> int

  // The comparator is a total preorder.
  ghost predicate Total<T(!new)>(cmp: Comparator<T>) {
    && (forall x, y :: cmp(x, y) < 0 <==> cmp(y, x) > 0)
    && (forall x, y, z :: cmp(x, y) <= 0 && cmp(y, z) <= 0 ==> cmp(x, z) <= 0)
  }

  lemma LessOrEqual<T(!new)>(cmp: Comparator<T>, x: T, y: T, z: T)
    requires Total(cmp) && cmp(x, y) <= 0 && cmp(y, z) <= 0
    ensures cmp(x, z) <= 0
  {
  }

  lemma Opposite<T(!new)>(cmp: Comparator<T>, x: T, y: T)
    requires Total(cmp)
    ensures cmp(x, y) < 0 <==> cmp(y, x) > 0
    ensures cmp(x, x) == 0
    ensures cmp(x, y) >= 0 <==> cmp(y, x) <= 0
  {
  }

  function IntComparator(lhs: int, rhs: int): int {
    if lhs < rhs then -1 else if lhs > rhs then 1 else 0
  }

  lemma IntComparatorTotal()
    ensures Total(IntComparator)
  {
  }

  ghost predicate SortedRange<T(!new)>(s: seq<T>, lo: int, hi: int, cmp: Comparator<T>)
    requires 0 <= lo <= hi <= |s|
  {
    forall i, j :: lo <= i < j < hi ==> cmp(s[i], s[j]) <= 0
  }

  // The comparator orders integers as they are, so a range sorted by it ascends.
  lemma IntComparatorOrders(x: int, y: int)
    ensures IntComparator(x, y) < 0 <==> x < y
    ensures IntComparator(x, y) > 0 <==> x > y
  {
  }

  lemma SortedAscends(s: seq<int>, lo: int, hi: int)
    requires 0 <= lo <= hi <= |s|
    ensures SortedRange(s, lo, hi, IntComparator) <==> forall i, j :: lo <= i < j < hi ==> s[i] <= s[j]
  {
    hide IntComparator;
    forall i, j | lo <= i < j < hi
      ensures IntComparator(s[i], s[j]) <= 0 <==> s[i] <= s[j]
    {
      IntComparatorOrders(s[i], s[j]);
    }
  }

  // `t` is `s` with the elements from `lo` to `hi` rearranged.
  ghost predicate Rearranged<T(!new)>(s: seq<T>, t: seq<T>, lo: int, hi: int)
    requires 0 <= lo <= hi <= |s|
  {
    && |t| == |s| && t[..lo] == s[..lo] && t[hi..] == s[hi..]
    && multiset(t[lo..hi]) == multiset(s[lo..hi])
  }

  function Swapped<T>(s: seq<T>, i: nat, j: nat): seq<T>
    requires i < |s| && j < |s|
  {
    s[i := s[j]][j := s[i]]
  }

  lemma SwappedRearranged<T(!new)>(s: seq<T>, i: nat, j: nat, lo: nat, hi: nat)
    requires lo <= i < hi <= |s| && lo <= j < hi
    ensures Rearranged(s, Swapped(s, i, j), lo, hi)
  {
  }

  lemma RearrangedTwice<T(!new)>(s: seq<T>, t: seq<T>, u: seq<T>, lo: nat, hi: nat)
    requires hi <= |s| && lo <= hi && Rearranged(s, t, lo, hi) && Rearranged(t, u, lo, hi)
    ensures Rearranged(s, u, lo, hi)
  {
  }

  // Rearranging a part rearranges the whole.
  lemma RearrangedPart<T(!new)>(s: seq<T>, t: seq<T>, lo: nat, l: nat, h: nat, hi: nat)
    requires lo <= l <= h <= hi <= |s| && Rearranged(s, t, l, h)
    ensures Rearranged(s, t, lo, hi)
  {
    assert s[lo..hi] == s[lo..l] + s[l..h] + s[h..hi];
    assert t[lo..hi] == t[lo..l] + t[l..h] + t[h..hi];
    assert s[lo..l] == s[..l][lo..] && t[lo..l] == t[..l][lo..];
    assert s[h..hi] == s[h..][..hi - h] && t[h..hi] == t[h..][..hi - h];
    assert t[..lo] == t[..l][..lo] && s[..lo] == s[..l][..lo];
    assert t[hi..] == t[h..][hi - h..] && s[hi..] == s[h..][hi - h..];
  }

  // What holds of every element of the range holds after rearranging it.
  lemma RearrangedElement<T(!new)>(s: seq<T>, t: seq<T>, lo: nat, hi: nat, k: nat) returns (o: nat)
    requires lo <= k < hi <= |s| && Rearranged(s, t, lo, hi)
    ensures lo <= o < hi && t[k] == s[o]
  {
    assert t[lo..hi][k - lo] == t[k];
    assert t[k] in multiset(t[lo..hi]);
    assert t[k] in s[lo..hi];
    var p :| 0 <= p < hi - lo && s[lo..hi][p] == t[k];
    o := lo + p;
  }

  method Swap<T>(a: array<T>, i: nat, j: nat)
    requires i < a.Length && j < a.Length
    modifies a
    ensures a[..] == Swapped(old(a[..]), i, j)
  {
    var temp := a[i];
    a[i] := a[j];
    a[j] := temp;
  }

  // ------------------------------------------------------------------ quicksort

  // The pivot, which is the first element, is greater than all others of the range.
  ghost predicate StrictMaximum<T(!new)>(s: seq<T>, first: int, last: int, cmp: Comparator<T>)
    requires 0 <= first <= last < |s|
  {
    forall k :: first < k <= last ==> cmp(s[k], s[first]) < 0
  }

  // Less than the pivot up to the split, not less from there on.
  ghost predicate Parted<T(!new)>(s: seq<T>, first: nat, split: nat, end: nat, pivot: T, cmp: Comparator<T>)
    requires first <= split <= end <= |s|
  {
    && (forall k :: first <= k < split ==> cmp(s[k], pivot) < 0)
    && (forall k :: split <= k < end ==> cmp(s[k], pivot) >= 0)
  }

  // One round of the partition loop.
  lemma PartedStep<T(!new)>(s: seq<T>, first: nat, split: nat, ptr: nat, cmp: Comparator<T>)
    requires first < split <= ptr < |s| && Parted(s, first + 1, split, ptr, s[first], cmp)
    ensures cmp(s[ptr], s[first]) < 0 ==> Parted(Swapped(s, ptr, split), first + 1, split + 1, ptr + 1, s[first], cmp)
    ensures cmp(s[ptr], s[first]) >= 0 ==> Parted(s, first + 1, split, ptr + 1, s[first], cmp)
    ensures Swapped(s, ptr, split)[first] == s[first] && (split == ptr ==> Swapped(s, ptr, split) == s)
  {
  }

  // The partition loop: the pivot stays first, the smaller elements come next.
  method Partition<T(!new)>(a: array<T>, first: nat, last: nat, cmp: Comparator<T>) returns (split: nat)
    requires first < last < a.Length
    modifies a
    ensures first < split <= last + 1 && a[first] == old(a[first])
    ensures Rearranged(old(a[..]), a[..], first, last + 1)
    ensures Parted(a[..], first + 1, split, last + 1, a[first], cmp)
    ensures split == last + 1 ==> old(StrictMaximum(a[..], first, last, cmp))
  {
    hide Rearranged, Parted, Swapped;
    var ptr := first;
    split := first + 1;
    ptr := ptr + 1;
    Unarranged(a[..], first, last + 1, split, a[first], cmp);
    while ptr <= last
      invariant first < split <= ptr <= last + 1 && a[first] == old(a[first])
      invariant Rearranged(old(a[..]), a[..], first, last + 1)
      invariant Parted(a[..], first + 1, split, ptr, a[first], cmp)
      invariant split == ptr ==> a[..] == old(a[..])
    {
      ghost var s := a[..];
      PartedStep(s, first, split, ptr, cmp);
      if cmp(a[ptr], a[first]) < 0 {
        SwappedRearranged(s, ptr, split, first, last + 1);
        Swap(a, ptr, split);
        assert a[..][first] == s[first];
        RearrangedTwice(old(a[..]), s, a[..], first, last + 1);
        split := split + 1;
      }
      ptr := ptr + 1;
    }
    AllLess(a[..], first, split, last, cmp);
  }

  lemma Unarranged<T(!new)>(s: seq<T>, lo: nat, hi: nat, at: nat, pivot: T, cmp: Comparator<T>)
    requires lo <= hi <= |s| && at <= |s|
    ensures Rearranged(s, s, lo, hi) && Parted(s, at, at, at, pivot, cmp)
  {
  }

  lemma AllLess<T(!new)>(s: seq<T>, first: nat, split: nat, last: nat, cmp: Comparator<T>)
    requires first < split <= last + 1 <= |s| && Parted(s, first + 1, split, last + 1, s[first], cmp)
    ensures split == last + 1 ==> StrictMaximum(s, first, last, cmp)
  {
  }

  // The left call can get the same range again, but then its pivot is no longer the strict
  // maximum of it.
  method QuicksortInternal<T(!new)>(a: array<T>, first: int, last: int, cmp: Comparator<T>)
    requires 0 <= first <= last + 1 <= a.Length && Total(cmp)
    modifies a
    ensures Rearranged(old(a[..]), a[..], first, last + 1)
    ensures SortedRange(a[..], first, last + 1, cmp)
    decreases last - first, if first <= last && StrictMaximum(a[..], first, last, cmp) then 1 else 0
  {
    hide Rearranged, Parted, Swapped, Total, SortedRange, Around, StrictMaximum;
    if last - first < 1 {
      ShortRange(a[..], first, last + 1, cmp);
      return;
    }
    ghost var s0 := a[..];
    var split := Partition(a, first, last, cmp);
    ghost var s1, pivot := a[..], a[first];
    SwappedRearranged(s1, first, split - 1, first, last + 1);
    PivotBetween(s1, first, split, last, cmp);
    Swap(a, first, split - 1);
    ghost var s2 := a[..];
    RearrangedTwice(s0, s1, s2, first, last + 1);
    QuicksortInternal(a, first, split - 1, cmp);
    ghost var s3 := a[..];
    QuicksortInternal(a, split, last, cmp);
    Joined(s2, s3, a[..], first, split, last, pivot, cmp);
    RearrangedTwice(s0, s2, a[..], first, last + 1);
  }

  lemma ShortRange<T(!new)>(s: seq<T>, lo: nat, hi: nat, cmp: Comparator<T>)
    requires lo <= hi <= |s| && hi - lo <= 1
    ensures Rearranged(s, s, lo, hi) && SortedRange(s, lo, hi, cmp)
  {
  }

  // Moving the pivot between the two parts. If the second part is empty the new first
  // element is smaller than the pivot, so it is not the maximum.
  lemma PivotBetween<T(!new)>(s: seq<T>, first: nat, split: nat, last: nat, cmp: Comparator<T>)
    requires first < split <= last + 1 <= |s| && first < last && Parted(s, first + 1, split, last + 1, s[first], cmp)
    requires Total(cmp)
    ensures var t := Swapped(s, first, split - 1);
            t[split - 1] == s[first] && Around(t, first, split, last, s[first], cmp) &&
            (split == last + 1 ==> !StrictMaximum(t, first, last, cmp))
  {
    var t := Swapped(s, first, split - 1);
    if split == last + 1 {
      Opposite(cmp, t[last], t[first]);
      assert cmp(t[first], t[last]) < 0;
    }
    Opposite(cmp, s[first], s[first]);
  }

  // No element of the first part is greater than the pivot, none of the second is less.
  ghost predicate Around<T(!new)>(s: seq<T>, first: nat, split: nat, last: nat, pivot: T, cmp: Comparator<T>)
    requires first <= split <= last + 1 <= |s|
  {
    && (forall k :: first <= k < split ==> cmp(s[k], pivot) <= 0)
    && (forall k :: split <= k <= last ==> cmp(s[k], pivot) >= 0)
  }

  // Two sorted parts around the pivot are sorted together.
  lemma Joined<T(!new)>(s2: seq<T>, s3: seq<T>, s4: seq<T>, first: nat, split: nat, last: nat, pivot: T,
                        cmp: Comparator<T>)
    requires first < split <= last + 1 <= |s2| && Total(cmp) && Around(s2, first, split, last, pivot, cmp)
    requires Rearranged(s2, s3, first, split) && SortedRange(s3, first, split, cmp)
    requires Rearranged(s3, s4, split, last + 1) && SortedRange(s4, split, last + 1, cmp)
    ensures Rearranged(s2, s4, first, last + 1) && SortedRange(s4, first, last + 1, cmp)
  {
    hide Total, Rearranged;
    RearrangedPart(s2, s3, first, first, split, last + 1);
    RearrangedPart(s3, s4, first, split, last + 1, last + 1);
    RearrangedTwice(s2, s3, s4, first, last + 1);
    forall i, j | first <= i < j <= last
      ensures cmp(s4[i], s4[j]) <= 0
    {
      if j < split {
        Outside(s3, s4, split, last + 1, i);
        Outside(s3, s4, split, last + 1, j);
        assert cmp(s3[i], s3[j]) <= 0;
      } else if i < split {
        Outside(s3, s4, split, last + 1, i);
        var p := RearrangedElement(s2, s3, first, split, i);
        var q := RearrangedElement(s3, s4, split, last + 1, j);
        Outside(s2, s3, first, split, q);
        Opposite(cmp, s2[q], pivot);
        LessOrEqual(cmp, s2[p], pivot, s2[q]);
      }
    }
  }

  // Elements outside the range stay.
  lemma Outside<T(!new)>(s: seq<T>, t: seq<T>, lo: nat, hi: nat, k: nat)
    requires lo <= hi <= |s| && Rearranged(s, t, lo, hi) && k < |s| && (k < lo || hi <= k)
    ensures |t| == |s| && t[k] == s[k]
  {
  }

  method Quicksort<T(!new)>(a: array<T>, count: nat, cmp: Comparator<T>)
    requires count <= a.Length && Total(cmp)
    modifies a
    ensures Rearranged(old(a[..]), a[..], 0, count) && SortedRange(a[..], 0, count, cmp)
  {
    QuicksortInternal(a, 0, count - 1, cmp);
  }

  // ------------------------------------------------------------------ bubblesort

  // Element `i` is the greatest up to `i`.
  ghost predicate Top<T(!new)>(s: seq<T>, i: nat, cmp: Comparator<T>)
    requires i < |s|
  {
    forall k :: 0 <= k < i ==> cmp(s[k], s[i]) <= 0
  }

  // The elements from `n` on are in place.
  ghost predicate Settled<T(!new)>(s: seq<T>, n: nat, count: nat, cmp: Comparator<T>)
    requires n <= count <= |s|
  {
    forall i, j :: 0 <= i < j < count && n <= j ==> cmp(s[i], s[j]) <= 0
  }

  // One comparison of a pass.
  lemma BubbleStep<T(!new)>(s: seq<T>, i: nat, n: nat, count: nat, cmp: Comparator<T>)
    requires i + 1 < n <= count <= |s| && Total(cmp) && Settled(s, n, count, cmp) && Top(s, i, cmp)
    ensures var t := if cmp(s[i], s[i + 1]) > 0 then Swapped(s, i, i + 1) else s;
            Settled(t, n, count, cmp) && Top(t, i + 1, cmp)
  {
    hide Total;
    var t := if cmp(s[i], s[i + 1]) > 0 then Swapped(s, i, i + 1) else s;
    Opposite(cmp, s[i], s[i + 1]);
    forall k | 0 <= k < i + 1
      ensures cmp(t[k], t[i + 1]) <= 0
    {
      if k < i && cmp(s[i], s[i + 1]) <= 0 {
        LessOrEqual(cmp, s[k], s[i], s[i + 1]);
      }
    }
  }

  // At the end of a pass one more element is in place.
  lemma BubbleDone<T(!new)>(s: seq<T>, n: nat, count: nat, cmp: Comparator<T>)
    requires 1 < n <= count <= |s| && Settled(s, n, count, cmp) && Top(s, n - 1, cmp)
    ensures Settled(s, n - 1, count, cmp)
  {
  }

  // One pass.
  method Bubble<T(!new)>(a: array<T>, n: nat, count: nat, cmp: Comparator<T>)
    requires 1 < n <= count <= a.Length && Total(cmp) && Settled(a[..], n, count, cmp)
    modifies a
    ensures Rearranged(old(a[..]), a[..], 0, count) && Settled(a[..], n - 1, count, cmp)
  {
    hide Total, Rearranged, Settled, Swapped;
    var i := 0;
    Unarranged(a[..], 0, count, 0, a[0], cmp);
    while i < n - 1
      invariant i <= n - 1
      invariant Rearranged(old(a[..]), a[..], 0, count)
      invariant Settled(a[..], n, count, cmp) && Top(a[..], i, cmp)
    {
      ghost var s := a[..];
      BubbleStep(s, i, n, count, cmp);
      if cmp(a[i], a[i + 1]) > 0 {
        SwappedRearranged(s, i, i + 1, 0, count);
        Swap(a, i, i + 1);
        RearrangedTwice(old(a[..]), s, a[..], 0, count);
      }
      i := i + 1;
    }
    BubbleDone(a[..], n, count, cmp);
  }

  method Bubblesort<T(!new)>(a: array<T>, count: nat, cmp: Comparator<T>)
    requires count <= a.Length && Total(cmp)
    modifies a
    ensures Rearranged(old(a[..]), a[..], 0, count) && SortedRange(a[..], 0, count, cmp)
  {
    var n: nat := count;
    while n > 1
      invariant n <= count && Rearranged(old(a[..]), a[..], 0, count) && Settled(a[..], n, count, cmp)
    {
      ghost var s := a[..];
      Bubble(a, n, count, cmp);
      RearrangedTwice(old(a[..]), s, a[..], 0, count);
      n := n - 1;
    }
  }
}
