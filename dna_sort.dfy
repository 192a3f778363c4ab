/** The DNA program: the split sort over C strings ordered by `strcmp`,
    and its parallel driver.  The driver sorts every rank's block, samples
    local splitters, gathers them on the root and selects global
    splitters, but never redistributes: every rank ends by sorting its own
    block a second time, so the splitters have no effect on the result. */
module DnaSort {
  import opened Order
  import opened Seqs
  import opened CString
  import Insertion
  import TwoWayMerge
  import SplitSort
  import opened Splitters

  /** Insertion sort of `lista[left..right]` under `strcmp`. */
  method InsertionSortDna(a: array<string>, left: int, right: int)
    requires 0 <= left <= right + 1 <= a.Length
    modifies a
    ensures Sorted(a[left..right + 1], StrLe)
    ensures multiset(a[left..right + 1]) == old(multiset(a[left..right + 1]))
    ensures a[..left] == old(a[..left]) && a[right + 1..] == old(a[right + 1..])
  {
    StrLeIsTotalOrder();
    Insertion.InsertionSort(a, left, right, StrLe);
  }

  /** Merge of the sorted runs `lista[left..mid]` and `lista[mid+1..right]`;
      `strcmp(..) <= 0` sends ties to the left run. */
  method MergeDna(a: array<string>, left: int, mid: int, right: int)
    requires 0 <= left <= mid <= right < a.Length
    modifies a
    ensures a[left..right + 1] == Merged(old(a[left..mid + 1]), old(a[mid + 1..right + 1]), StrLe)
    ensures (Sorted(old(a[left..mid + 1]), StrLe) && Sorted(old(a[mid + 1..right + 1]), StrLe))
              ==> Sorted(a[left..right + 1], StrLe)
    ensures multiset(a[left..right + 1]) == old(multiset(a[left..right + 1]))
    ensures a[..left] == old(a[..left]) && a[right + 1..] == old(a[right + 1..])
  {
    StrLeIsTotalOrder();
    TwoWayMerge.Merge(a, left, mid, right, StrLe);
  }

  /** The split sort of `lista[left..right]` under `strcmp`. */
  method SplitSortDna(a: array<string>, left: int, right: int)
    requires 0 <= left <= right + 1 <= a.Length
    modifies a
    ensures Sorted(a[left..right + 1], StrLe)
    ensures multiset(a[left..right + 1]) == old(multiset(a[left..right + 1]))
    ensures a[..left] == old(a[..left]) && a[right + 1..] == old(a[right + 1..])
    ensures Sorted(old(a[left..right + 1]), StrLe) ==> a[left..right + 1] == old(a[left..right + 1])
  {
    StrLeIsTotalOrder();
    SplitSort.SplitSort(a, left, right, StrLe);
  }

  /** Steps 1 and 2 on one rank: sort the block, then read the local
      splitters off it. */
  method SortAndSampleDna(block: seq<string>, P: int) returns (sorted: seq<string>, picks: seq<string>)
    requires P >= 1 && |block| >= 1
    ensures Sorted(sorted, StrLe) && multiset(sorted) == multiset(block) && |sorted| == |block|
    ensures picks == Samples(sorted, P) && Sorted(picks, StrLe)
  {
    StrLeIsTotalOrder();
    var arr := FromSeq(block);
    var n := arr.Length;
    assert block == arr[0..n - 1 + 1];
    SplitSortDna(arr, 0, n - 1);
    sorted := arr[..];
    assert sorted == arr[0..n - 1 + 1] == arr[..n];
    var ls := SelectSplitters(arr, n, P);
    picks := ls[..];
    SamplesSorted(sorted, P, StrLe);
  }

  /** The final sort of a rank's block, which the first sort already left
      in order: the block comes back unchanged. */
  method ResortDna(sorted: seq<string>) returns (final: seq<string>)
    requires Sorted(sorted, StrLe)
    ensures final == sorted
  {
    var arr := FromSeq(sorted);
    var n := arr.Length;
    assert sorted == arr[0..n - 1 + 1];
    SplitSortDna(arr, 0, n - 1);
    final := arr[..];
    assert final == arr[0..n - 1 + 1];
  }

  /** The DNA driver over `P` ranks holding the blocks `locals`: every rank
      ends with its own items, sorted, and as many as it started with
      (`local_n` unchanged); the global splitters the root selects are
      sorted, but nothing uses them. */
  method ParallelDnaSort(locals: seq<seq<string>>, P: int) returns (finals: seq<seq<string>>, splitters: seq<string>)
    requires P >= 1 && |locals| == P
    requires forall r :: 0 <= r < P ==> |locals[r]| >= 1
    ensures |finals| == P
    ensures forall r :: 0 <= r < P ==>
              Sorted(finals[r], StrLe) && multiset(finals[r]) == multiset(locals[r]) && |finals[r]| == |locals[r]|
    ensures |splitters| == P - 1 && Sorted(splitters, StrLe)
  {
    StrLeIsTotalOrder();
    var sorted: seq<seq<string>> := [];
    var picks: seq<seq<string>> := [];
    for r := 0 to P
      invariant |sorted| == |picks| == r
      invariant forall j :: 0 <= j < r ==>
                  Sorted(sorted[j], StrLe) && multiset(sorted[j]) == multiset(locals[j]) &&
                  |sorted[j]| == |locals[j]| && |picks[j]| == P - 1
    {
      var s, ls := SortAndSampleDna(locals[r], P);
      sorted := sorted + [s];
      picks := picks + [ls];
    }
    var gathered := GatherSplitters(picks, P, P - 1);
    var all := FromSeq(gathered[..]);
    var global := ChooseGlobalSplitters(all, P, StrLe);
    splitters := global[..];
    finals := [];
    for r := 0 to P
      invariant |finals| == r
      invariant forall j :: 0 <= j < r ==> finals[j] == sorted[j]
    {
      var f := ResortDna(sorted[r]);
      finals := finals + [f];
    }
  }
}
