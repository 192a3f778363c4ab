/** The bucket sort program: the values of `arr[0..n)` are spread over
    `num_baldes` growable buckets by where they fall between the smallest
    and the largest value, every bucket is sorted with the split sort, and
    the buckets are copied back one after the other. */
module BucketSort {
  import opened Order
  import opened Seqs
  import SplitSort
  import Splitters

  /** The room a new bucket starts with. */
  const INITIAL_CAPACITY := 10

  /** A growable bucket (`Balde`): the first `size` cells of `elements`
      hold its values, and `capacity` is the length of `elements`. */
  class Bucket {
    var elements: array<int>
    var size: int
    var capacity: int

    ghost predicate Valid()
      reads this
    {
      0 <= size <= capacity && capacity == elements.Length && capacity >= 1
    }

    /** The values in the bucket, in the order they were added. */
    ghost function Contents(): seq<int>
      reads this, elements
      requires Valid()
    {
      elements[..size]
    }

    /** `criar_balde`: an empty bucket with room for 10 values. */
    constructor ()
      ensures Valid() && fresh(elements)
      ensures size == 0 && capacity == INITIAL_CAPACITY && Contents() == []
    {
      capacity := INITIAL_CAPACITY;
      size := 0;
      elements := new int[INITIAL_CAPACITY];
    }

    /** `adicionar_ao_balde`: appends `x`.  A full bucket first moves to an
        array of twice the capacity holding the same values; a bucket with
        room keeps its array and its capacity. */
    method Add(x: int)
      requires Valid()
      modifies this, elements
      ensures Valid()
      ensures Contents() == old(Contents()) + [x] && size == old(size) + 1
      ensures old(size) == old(capacity) ==> capacity == 2 * old(capacity) && fresh(elements)
      ensures old(size) < old(capacity) ==> capacity == old(capacity) && elements == old(elements)
    {
      if size == capacity {
        capacity := capacity * 2;
        var grown := new int[capacity];
        forall k | 0 <= k < size {
          grown[k] := elements[k];
        }
        elements := grown;
      }
      elements[size] := x;
      size := size + 1;
    }
  }

  /** Buckets that are all valid and share neither themselves nor their
      arrays, none of which is `arr`. */
  ghost predicate Family(buckets: seq<Bucket>, arr: array<int>)
    reads set j | 0 <= j < |buckets| :: buckets[j]
  {
    (forall j :: 0 <= j < |buckets| ==> buckets[j].Valid() && buckets[j].elements != arr) &&
    (forall j, k :: 0 <= j < k < |buckets| ==> buckets[j] != buckets[k] && buckets[j].elements != buckets[k].elements)
  }

  /** Bucket `j` holds `B[j]`, for every `j`. */
  ghost predicate Holds(buckets: seq<Bucket>, B: seq<seq<int>>)
    reads set j | 0 <= j < |buckets| :: buckets[j]
    reads set j | 0 <= j < |buckets| :: buckets[j].elements
  {
    |B| == |buckets| && forall j :: 0 <= j < |buckets| ==> buckets[j].Valid() && buckets[j].Contents() == B[j]
  }

  /** The scan for the smallest and the largest of `arr[0..n)`: both bound
      every value and both occur. */
  method MinMax(arr: array<int>, n: int) returns (minVal: int, maxVal: int)
    requires 1 <= n <= arr.Length
    ensures forall k :: 0 <= k < n ==> minVal <= arr[k] <= maxVal
    ensures exists k :: 0 <= k < n && arr[k] == minVal
    ensures exists k :: 0 <= k < n && arr[k] == maxVal
  {
    minVal, maxVal := arr[0], arr[0];
    ghost var at, bt := 0, 0;
    for i := 1 to n
      invariant 0 <= at < i && arr[at] == minVal && 0 <= bt < i && arr[bt] == maxVal
      invariant forall k :: 0 <= k < i ==> minVal <= arr[k] <= maxVal
    {
      if arr[i] < minVal {
        minVal := arr[i];
        at := i;
      }
      if arr[i] > maxVal {
        maxVal := arr[i];
        bt := i;
      }
    }
  }

  /** The bucket of value `v`: its distance from the smallest value scaled
      to `numBuckets` buckets over the `maxVal - minVal + 1` values of the
      range, with the top index moved down to the last bucket.  The
      program computes the quotient in floating point; this is its exact
      value. */
  function BucketIndex(v: int, minVal: int, maxVal: int, numBuckets: int): (index: int)
    requires minVal <= v <= maxVal && numBuckets >= 1
    ensures 0 <= index < numBuckets
  {
    var range := maxVal - minVal + 1;
    Splitters.MulMono(v - minVal, range - 1, numBuckets);
    assert (range - 1) * numBuckets + numBuckets == range * numBuckets;
    Splitters.DivBelow((v - minVal) * numBuckets, range, numBuckets);
    var index := (v - minVal) * numBuckets / range;
    if index == numBuckets then index - 1 else index
  }

  /** A larger value never goes to an earlier bucket; so a value in an
      earlier bucket is smaller than every value in a later one. */
  lemma BucketIndexMono(v: int, w: int, minVal: int, maxVal: int, numBuckets: int)
    requires minVal <= v <= w <= maxVal && numBuckets >= 1
    ensures BucketIndex(v, minVal, maxVal, numBuckets) <= BucketIndex(w, minVal, maxVal, numBuckets)
  {
    Splitters.MulMono(v - minVal, w - minVal, numBuckets);
    Splitters.DivMono((v - minVal) * numBuckets, (w - minVal) * numBuckets, maxVal - minVal + 1);
  }

  /** `numBuckets` new empty buckets. */
  method CreateBuckets(numBuckets: int, arr: array<int>) returns (buckets: seq<Bucket>)
    requires numBuckets >= 1
    ensures |buckets| == numBuckets && Family(buckets, arr)
    ensures Holds(buckets, seq(numBuckets, j => []))
    ensures forall j :: 0 <= j < numBuckets ==> fresh(buckets[j]) && fresh(buckets[j].elements)
  {
    buckets := [];
    for i := 0 to numBuckets
      invariant |buckets| == i && Family(buckets, arr)
      invariant forall j :: 0 <= j < i ==> fresh(buckets[j]) && fresh(buckets[j].elements) && buckets[j].size == 0
    {
      var b := new Bucket();
      buckets := buckets + [b];
    }
  }

  /** Every value in block `j` of `B` lies in the range and belongs to
      bucket `j`. */
  ghost predicate Routed(B: seq<seq<int>>, minVal: int, maxVal: int) {
    forall j, x {:trigger x in B[j]} :: 0 <= j < |B| && x in B[j] ==>
      minVal <= x <= maxVal && BucketIndex(x, minVal, maxVal, |B|) == j
  }

  /** Routing puts the smaller values first: everything in an earlier
      bucket is at most everything in a later one. */
  lemma RoutedOrdered(B: seq<seq<int>>, minVal: int, maxVal: int)
    requires Routed(B, minVal, maxVal)
    ensures forall t, u, x, y :: 0 <= t < u < |B| && x in B[t] && y in B[u] ==> IntLe(x, y)
  {
    forall t, u, x, y | 0 <= t < u < |B| && x in B[t] && y in B[u] ensures IntLe(x, y) {
      assert minVal <= x <= maxVal && BucketIndex(x, minVal, maxVal, |B|) == t;
      assert minVal <= y <= maxVal && BucketIndex(y, minVal, maxVal, |B|) == u;
      if y < x {
        BucketIndexMono(y, x, minVal, maxVal, |B|);
      }
    }
  }

  /** Rearranging each bucket keeps the routing. */
  lemma RoutedSameBlocks(B: seq<seq<int>>, S: seq<seq<int>>, minVal: int, maxVal: int)
    requires Routed(B, minVal, maxVal)
    requires |S| == |B| && forall j :: 0 <= j < |B| ==> multiset(S[j]) == multiset(B[j])
    ensures Routed(S, minVal, maxVal)
  {
    forall j, x | 0 <= j < |S| && x in S[j] ensures x in B[j] {
      assert x in multiset(S[j]);
    }
  }

  /** Adding `x` to the bucket it belongs to keeps the routing. */
  lemma RoutedGrow(B: seq<seq<int>>, idx: int, x: int, minVal: int, maxVal: int)
    requires Routed(B, minVal, maxVal) && 0 <= idx < |B|
    requires minVal <= x <= maxVal && BucketIndex(x, minVal, maxVal, |B|) == idx
    ensures Routed(B[idx := B[idx] + [x]], minVal, maxVal)
  {
    var C := B[idx := B[idx] + [x]];
    forall j, y | 0 <= j < |C| && y in C[j]
      ensures minVal <= y <= maxVal && BucketIndex(y, minVal, maxVal, |C|) == j
    {
      if j == idx {
        if y != x {
          assert y in B[idx];
        }
      } else {
        assert C[j] == B[j];
      }
    }
  }

  /** One step of the distribution: `x` goes to bucket `idx`.  A bucket
      that grows gets a fresh array, so the buckets stay apart. */
  method Scatter(buckets: seq<Bucket>, arr: array<int>, idx: int, x: int, ghost B: seq<seq<int>>)
    requires Family(buckets, arr) && Holds(buckets, B) && 0 <= idx < |buckets|
    modifies buckets[idx], buckets[idx].elements
    ensures Family(buckets, arr) && Holds(buckets, B[idx := B[idx] + [x]])
    ensures forall j :: 0 <= j < |buckets| ==>
              buckets[j].elements == old(buckets[j].elements) || fresh(buckets[j].elements)
  {
    buckets[idx].Add(x);
  }

  /** Every value of `s` lies between `minVal` and `maxVal`. */
  ghost predicate InRange(s: seq<int>, minVal: int, maxVal: int) {
    forall k :: 0 <= k < |s| ==> minVal <= s[k] <= maxVal
  }

  /** What the distribution puts in the buckets: the values of `s`, in
      order, each appended to the bucket it belongs to. */
  ghost function Buckets(s: seq<int>, minVal: int, maxVal: int, numBuckets: int): (B: seq<seq<int>>)
    requires InRange(s, minVal, maxVal) && numBuckets >= 1
    ensures |B| == numBuckets
    decreases |s|
  {
    if s == [] then seq(numBuckets, j => [])
    else
      var B := Buckets(s[..|s| - 1], minVal, maxVal, numBuckets);
      var x := s[|s| - 1];
      var idx := BucketIndex(x, minVal, maxVal, numBuckets);
      B[idx := B[idx] + [x]]
  }

  /** The buckets hold exactly the values distributed. */
  lemma {:induction false} BucketsMultiset(s: seq<int>, minVal: int, maxVal: int, numBuckets: int)
    requires InRange(s, minVal, maxVal) && numBuckets >= 1
    ensures multiset(Flatten(Buckets(s, minVal, maxVal, numBuckets))) == multiset(s)
    decreases |s|
  {
    if s == [] {
      FlattenEmpty(Buckets(s, minVal, maxVal, numBuckets));
    } else {
      var front := s[..|s| - 1];
      var x := s[|s| - 1];
      BucketsMultiset(front, minVal, maxVal, numBuckets);
      FlattenGrow(Buckets(front, minVal, maxVal, numBuckets), BucketIndex(x, minVal, maxVal, numBuckets), x);
      assert s == front + [x];
    }
  }

  /** Every value lands in the bucket it belongs to. */
  lemma {:induction false} BucketsRouted(s: seq<int>, minVal: int, maxVal: int, numBuckets: int)
    requires InRange(s, minVal, maxVal) && numBuckets >= 1
    ensures Routed(Buckets(s, minVal, maxVal, numBuckets), minVal, maxVal)
    decreases |s|
  {
    if s != [] {
      var front := s[..|s| - 1];
      var x := s[|s| - 1];
      BucketsRouted(front, minVal, maxVal, numBuckets);
      RoutedGrow(Buckets(front, minVal, maxVal, numBuckets), BucketIndex(x, minVal, maxVal, numBuckets), x, minVal, maxVal);
    }
  }

  /** Distributing one more value appends it to its bucket. */
  lemma BucketsStep(s: seq<int>, i: int, minVal: int, maxVal: int, numBuckets: int)
    requires InRange(s, minVal, maxVal) && numBuckets >= 1 && 0 <= i < |s|
    ensures var B := Buckets(s[..i], minVal, maxVal, numBuckets);
            var idx := BucketIndex(s[i], minVal, maxVal, numBuckets);
            Buckets(s[..i + 1], minVal, maxVal, numBuckets) == B[idx := B[idx] + [s[i]]]
  {
    assert s[..i + 1][..i] == s[..i];
  }

  /** The distribution loop: each of `arr[0..n)` is added to the bucket its
      value belongs to. */
  method Distribute(arr: array<int>, n: int, buckets: seq<Bucket>, minVal: int, maxVal: int)
    requires 0 <= n <= arr.Length && |buckets| >= 1 && InRange(arr[..n], minVal, maxVal)
    requires Family(buckets, arr) && Holds(buckets, seq(|buckets|, j => []))
    modifies set j | 0 <= j < |buckets| :: buckets[j]
    modifies set j | 0 <= j < |buckets| :: buckets[j].elements
    ensures Family(buckets, arr) && Holds(buckets, Buckets(arr[..n], minVal, maxVal, |buckets|))
    ensures forall j :: 0 <= j < |buckets| ==>
              buckets[j].elements == old(buckets[j].elements) || fresh(buckets[j].elements)
  {
    ghost var s := arr[..n];
    ghost var B := Buckets(s[..0], minVal, maxVal, |buckets|);
    for i := 0 to n
      invariant Family(buckets, arr) && Holds(buckets, B)
      invariant B == Buckets(s[..i], minVal, maxVal, |buckets|)
      invariant arr[..n] == s
      invariant forall j :: 0 <= j < |buckets| ==>
                  buckets[j].elements == old(buckets[j].elements) || fresh(buckets[j].elements)
    {
      assert s[i] == arr[i];
      var idx := BucketIndex(arr[i], minVal, maxVal, |buckets|);
      Scatter(buckets, arr, idx, arr[i], B);
      BucketsStep(s, i, minVal, maxVal, |buckets|);
      B := B[idx := B[idx] + [arr[i]]];
    }
    assert s[..n] == s;
  }

  /** The blocks before `i` and block `i` fit in the whole concatenation. */
  lemma FlattenPrefixFits<T>(B: seq<seq<T>>, i: int)
    requires 0 <= i < |B|
    ensures |Flatten(B[..i + 1])| == |Flatten(B[..i])| + |B[i]| <= |Flatten(B)|
  {
    FlattenSplit(B, i);
    FlattenLast(B, i);
  }

  /** The copy loop of the write-back: `count` values of `src` go to `arr`
      from `index` on. */
  method CopyRun(arr: array<int>, n: int, index: int, src: array<int>, count: int, ghost prev: seq<int>)
      returns (next: int)
    requires src != arr && 0 <= count <= src.Length && 0 <= index && index + count <= n <= arr.Length
    requires arr[..index] == prev
    modifies arr
    ensures next == index + count
    ensures arr[..next] == prev + src[..count] && arr[n..] == old(arr[n..])
  {
    next := index;
    for j := 0 to count
      invariant next == index + j
      invariant arr[..next] == prev + src[..j] && arr[n..] == old(arr[n..])
    {
      arr[next] := src[j];
      next := next + 1;
      assert src[..j + 1] == src[..j] + [src[j]];
    }
  }

  /** Block by block, each of `S` is sorted and holds the values of the
      matching block of `B`. */
  ghost predicate SortedBlocks(S: seq<seq<int>>, B: seq<seq<int>>)
    decreases |S|
  {
    |S| == |B| &&
    (S != [] ==>
       SortedBlocks(S[..|S| - 1], B[..|B| - 1]) &&
       Sorted(S[|S| - 1], IntLe) && multiset(S[|S| - 1]) == multiset(B[|B| - 1]))
  }

  lemma {:induction false} SortedBlocksAt(S: seq<seq<int>>, B: seq<seq<int>>)
    requires SortedBlocks(S, B)
    ensures |S| == |B| && forall j :: 0 <= j < |S| ==> Sorted(S[j], IntLe) && multiset(S[j]) == multiset(B[j])
    decreases |S|
  {
    if S != [] {
      SortedBlocksAt(S[..|S| - 1], B[..|B| - 1]);
    }
  }

  /** The bookkeeping of one write-back step: the sorted bucket `c` joins
      the sorted blocks and the output. */
  lemma WriteBackStep(S: seq<seq<int>>, B: seq<seq<int>>, i: int, c: seq<int>)
    requires |S| == i < |B| && SortedBlocks(S, B[..i])
    requires Sorted(c, IntLe) && multiset(c) == multiset(B[i])
    ensures SortedBlocks(S + [c], B[..i + 1]) && Flatten(S + [c]) == Flatten(S) + c
  {
    assert (S + [c])[..i] == S && B[..i + 1][..i] == B[..i];
  }

  /** The state of the write-back before bucket `i`: the sorted buckets
      `S` before it fill `arr[0..index)` and the buckets from `i` on still
      hold what the distribution left in them. */
  ghost predicate Progress(arr: array<int>, n: int, buckets: seq<Bucket>, B: seq<seq<int>>, S: seq<seq<int>>, index: int, i: int)
    reads arr, set j | 0 <= j < |buckets| :: buckets[j]
    reads set j | 0 <= j < |buckets| :: buckets[j].elements
  {
    Family(buckets, arr) && |buckets| == |B| && |Flatten(B)| == n <= arr.Length &&
    0 <= i <= |B| && |S| == i && SortedBlocks(S, B[..i]) &&
    index == |Flatten(B[..i])| <= n && arr[..index] == Flatten(S) &&
    forall j :: i <= j < |buckets| ==> buckets[j].Contents() == B[j]
  }

  /** One bucket of the write-back: a non-empty bucket is sorted with the
      split sort and its values copied to `arr` from `index` on; an empty
      one is skipped. */
  method WriteBucket(arr: array<int>, n: int, index: int, b: Bucket, ghost prev: seq<int>) returns (next: int)
    requires b.Valid() && b.elements != arr && 0 <= index && index + b.size <= n <= arr.Length
    requires arr[..index] == prev
    modifies arr, b.elements
    ensures next == index + b.size
    ensures Sorted(b.Contents(), IntLe) && multiset(b.Contents()) == old(multiset(b.Contents()))
    ensures arr[..next] == prev + b.Contents() && arr[n..] == old(arr[n..])
  {
    next := index;
    if b.size > 0 {
      IntLeIsTotalOrder();
      SplitSort.SplitSort(b.elements, 0, b.size - 1, IntLe);
      assert b.elements[0..b.size - 1 + 1] == b.Contents();
      next := CopyRun(arr, n, index, b.elements, b.size, prev);
    } else {
      assert b.Contents() == [];
    }
  }

  /** Bucket `i` of the write-back moves the state on to bucket `i + 1`:
      only bucket `i`'s array and `arr` change. */
  method Drain(arr: array<int>, n: int, index: int, buckets: seq<Bucket>, i: int, ghost B: seq<seq<int>>, ghost S: seq<seq<int>>)
      returns (next: int, ghost S': seq<seq<int>>)
    requires Progress(arr, n, buckets, B, S, index, i) && i < |buckets|
    modifies arr, buckets[i].elements
    ensures Progress(arr, n, buckets, B, S', next, i + 1) && arr[n..] == old(arr[n..])
  {
    var b := buckets[i];
    FlattenPrefixFits(B, i);
    assert forall j :: i < j < |buckets| ==> buckets[j].elements != b.elements && buckets[j].elements != arr;
    next := WriteBucket(arr, n, index, b, Flatten(S));
    S' := S + [b.Contents()];
    WriteBackStep(S, B, i, b.Contents());
  }

  /** The write-back loop: bucket after bucket is sorted and copied back,
      so `arr[0..n)` ends as the sorted buckets laid end to end. */
  method WriteBack(arr: array<int>, n: int, buckets: seq<Bucket>, ghost B: seq<seq<int>>)
      returns (ghost S: seq<seq<int>>)
    requires 0 <= n <= arr.Length && Family(buckets, arr) && Holds(buckets, B) && |Flatten(B)| == n
    modifies arr
    modifies set j | 0 <= j < |buckets| :: buckets[j].elements
    ensures |S| == |B|
    ensures forall j :: 0 <= j < |B| ==> Sorted(S[j], IntLe) && multiset(S[j]) == multiset(B[j])
    ensures arr[..n] == Flatten(S) && arr[n..] == old(arr[n..])
  {
    S := [];
    var index := 0;
    for i := 0 to |buckets|
      invariant Progress(arr, n, buckets, B, S, index, i) && arr[n..] == old(arr[n..])
    {
      index, S := Drain(arr, n, index, buckets, i, B, S);
    }
    assert B[..|buckets|] == B;
    SortedBlocksAt(S, B);
  }

  /** `bucket_sort(arr, n, num_baldes)`: nothing happens when `n <= 0`;
      otherwise `arr[0..n)` ends sorted and holding the same values, and
      the cells from `n` on are untouched. */
  method BucketSort(arr: array<int>, n: int, numBuckets: int)
    requires n <= arr.Length && numBuckets >= 1
    modifies arr
    ensures n <= 0 ==> arr[..] == old(arr[..])
    ensures n > 0 ==> Sorted(arr[..n], IntLe) && multiset(arr[..n]) == old(multiset(arr[..n]))
    ensures n > 0 ==> arr[n..] == old(arr[n..])
  {
    if n <= 0 {
      return;
    }
    var minVal, maxVal := MinMax(arr, n);
    assert InRange(arr[..n], minVal, maxVal);
    var buckets := CreateBuckets(numBuckets, arr);
    Distribute(arr, n, buckets, minVal, maxVal);
    ghost var B := Buckets(arr[..n], minVal, maxVal, numBuckets);
    BucketsMultiset(arr[..n], minVal, maxVal, numBuckets);
    BucketsRouted(arr[..n], minVal, maxVal, numBuckets);
    assert |Flatten(B)| == n by {
      assert |multiset(Flatten(B))| == |multiset(arr[..n])|;
    }
    ghost var S := WriteBack(arr, n, buckets, B);
    RoutedSameBlocks(B, S, minVal, maxVal);
    RoutedOrdered(S, minVal, maxVal);
    SortedFlatten(S, IntLe);
    FlattenSameBlocks(S, B);
  }
}
