/** The hybrid "split sort" that all four programs use for local sorting:
    top-down merge sort on `a[left..right]` (both ends inclusive, as in the
    C code) that falls back to insertion sort on ranges of at most
    INSERTION_THRESHOLD cells.  The C copies differ only in the element type
    and the comparison (`<=` on `int`, `strcmp` on strings), which is the
    `le` parameter here. */
module SplitSort {
  import opened Order
  import opened Slices
  import opened Insertion
  import opened TwoWayMerge

  /** Ranges of at most this many cells are sorted by insertion. */
  const INSERTION_THRESHOLD := 16

  /** The split sort: insertion sort for short ranges, otherwise sort both
      halves (split at `left + (right - left) / 2`) and merge them. */
  method SplitSort<T(!new)>(a: array<T>, left: int, right: int, le: (T, T) -> bool)
    requires TotalOrder(le)
    requires 0 <= left <= right + 1 <= a.Length
    modifies a
    ensures Sorted(a[left..right + 1], le)
    ensures multiset(a[left..right + 1]) == old(multiset(a[left..right + 1]))
    ensures a[..left] == old(a[..left]) && a[right + 1..] == old(a[right + 1..])
    ensures Sorted(old(a[left..right + 1]), le) ==> a[left..right + 1] == old(a[left..right + 1])
    decreases right - left
  {
    ghost var before := a[left..right + 1];
    if right - left + 1 <= INSERTION_THRESHOLD {
      InsertionSort(a, left, right, le);
    } else {
      var mid := left + (right - left) / 2;
      ghost var s0 := a[..];
      SplitSort(a, left, mid, le);
      ghost var s1 := a[..];
      SplitSort(a, mid + 1, right, le);
      ghost var s2 := a[..];
      Merge(a, left, mid, right, le);
      MergeHalvesOutcome(s0, s1, s2, a[..], left, mid, right, le);
    }
    SortedIsFixed(before, a[left..right + 1], le);
  }

  /** A sort leaves an already sorted range as it was: the sorted
      arrangement of its elements is unique. */
  lemma SortedIsFixed<T(!new)>(before: seq<T>, after: seq<T>, le: (T, T) -> bool)
    requires TotalOrder(le)
    requires Sorted(after, le) && multiset(after) == multiset(before)
    ensures Sorted(before, le) ==> after == before
  {
    if Sorted(before, le) {
      SortedUnique(after, before, le);
    }
  }

  /** The recursive case of the split sort on snapshots: `s1` after sorting
      the left half of `s0`, `s2` after sorting the right half, `s3` after
      merging them.  Then the range of `s3` is a sorted permutation of the
      range of `s0`, and nothing outside the range changed. */
  lemma MergeHalvesOutcome<T>(s0: seq<T>, s1: seq<T>, s2: seq<T>, s3: seq<T>, left: int, mid: int, right: int,
                              le: (T, T) -> bool)
    requires 0 <= left <= mid <= right < |s0| == |s1| == |s2| == |s3|
    requires Sorted(s1[left..mid + 1], le)
    requires multiset(s1[left..mid + 1]) == multiset(s0[left..mid + 1])
    requires s1[..left] == s0[..left] && s1[mid + 1..] == s0[mid + 1..]
    requires Sorted(s2[mid + 1..right + 1], le)
    requires multiset(s2[mid + 1..right + 1]) == multiset(s1[mid + 1..right + 1])
    requires s2[..mid + 1] == s1[..mid + 1] && s2[right + 1..] == s1[right + 1..]
    requires (Sorted(s2[left..mid + 1], le) && Sorted(s2[mid + 1..right + 1], le)) ==> Sorted(s3[left..right + 1], le)
    requires multiset(s3[left..right + 1]) == multiset(s2[left..right + 1])
    requires s3[..left] == s2[..left] && s3[right + 1..] == s2[right + 1..]
    ensures Sorted(s3[left..right + 1], le)
    ensures multiset(s3[left..right + 1]) == multiset(s0[left..right + 1])
    ensures s3[..left] == s0[..left] && s3[right + 1..] == s0[right + 1..]
  {
    HalvesSorted(s0, s1, s2, left, mid, right, le);
    AgreeBelow(s2, s1, mid + 1, 0, left);
    AgreeAbove(s1, s0, mid + 1, right + 1);
  }

  /** After sorting both halves in turn, `s2` holds two sorted halves that
      together are a permutation of the range in `s0`, and is unchanged outside it. */
  lemma HalvesSorted<T>(s0: seq<T>, s1: seq<T>, s2: seq<T>, left: int, mid: int, right: int, le: (T, T) -> bool)
    requires 0 <= left <= mid <= right < |s0| == |s1| == |s2|
    requires Sorted(s1[left..mid + 1], le)
    requires multiset(s1[left..mid + 1]) == multiset(s0[left..mid + 1])
    requires s1[..left] == s0[..left] && s1[mid + 1..] == s0[mid + 1..]
    requires Sorted(s2[mid + 1..right + 1], le)
    requires multiset(s2[mid + 1..right + 1]) == multiset(s1[mid + 1..right + 1])
    requires s2[..mid + 1] == s1[..mid + 1] && s2[right + 1..] == s1[right + 1..]
    ensures Sorted(s2[left..mid + 1], le)
    ensures multiset(s2[left..right + 1]) == multiset(s0[left..right + 1])
  {
    AgreeBelow(s2, s1, mid + 1, left, mid + 1);
    AgreeAbove(s1, s0, mid + 1, mid + 1);
    assert s1[mid + 1..right + 1] == s0[mid + 1..right + 1] by {
      assert s1[mid + 1..right + 1] == s1[mid + 1..][..right - mid];
      assert s0[mid + 1..right + 1] == s0[mid + 1..][..right - mid];
    }
    assert s2[left..right + 1] == s2[left..mid + 1] + s2[mid + 1..right + 1];
    assert s0[left..right + 1] == s0[left..mid + 1] + s0[mid + 1..right + 1];
  }
}
