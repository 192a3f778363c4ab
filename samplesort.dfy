/** The parallel sample sort of the numbers program, end to end.  The ranks
    are simulated one after the other over a sequence of per-rank blocks;
    the collective operations contribute only their effect on the data:
    the gather lays the local splitters of all ranks end to end, the
    broadcast hands the same global splitters to every rank, the all-to-all
    of the counts transposes the count matrix and the all-to-all-v hands
    rank `r` the `r`-th segment of every rank's send buffer, in rank order. */
module SampleSort {
  import opened Order
  import opened Seqs
  import SplitSort
  import opened Splitters
  import opened Routing

  /** What rank `r` receives from the all-to-all of the send counts: entry
      `r` of every rank's row. */
  function Column(m: seq<seq<int>>, r: int): (c: seq<int>)
    requires 0 <= r && forall j :: 0 <= j < |m| ==> r < |m[j]|
    ensures |c| == |m|
  {
    seq(|m|, j requires 0 <= j < |m| => m[j][r])
  }

  /** The layout a rank's send buffer, counts and displacements have after
      the histogram, displacement and placement loops of that rank. */
  ghost predicate SendState(s: seq<int>, sp: seq<int>, buf: seq<int>, counts: seq<int>, displs: seq<int>) {
    counts == Hist(s, sp, |sp| + 1) &&
    displs == PrefixSums(counts) &&
    buf == Flatten(Buckets(s, sp, |sp| + 1))
  }

  /** The part of a send buffer meant for rank `r`: `send_counts[r]`
      items from `send_displs[r]` on. */
  function Segment(buf: seq<int>, counts: seq<int>, displs: seq<int>, r: int): seq<int>
    requires 0 <= r < |counts| == |displs| && 0 <= displs[r] <= displs[r] + counts[r] <= |buf|
  {
    buf[displs[r]..displs[r] + counts[r]]
  }

  /** In a send state, segment `r` lies inside the buffer and is exactly
      bucket `r` of the rank's items. */
  lemma SegmentOfState(s: seq<int>, sp: seq<int>, buf: seq<int>, counts: seq<int>, displs: seq<int>, r: int)
    requires SendState(s, sp, buf, counts, displs) && 0 <= r <= |sp|
    ensures 0 <= r < |counts| == |displs| && 0 <= displs[r] <= displs[r] + counts[r] <= |buf|
    ensures Segment(buf, counts, displs, r) == Bucket(s, sp, r)
  {
    SegmentIsBucket(s, sp, r);
  }

  /** Segment `r` of every rank's send buffer, in rank order. */
  function Segments(S: seq<seq<int>>, sp: seq<int>, bufs: seq<seq<int>>, counts: seq<seq<int>>,
                    displs: seq<seq<int>>, r: int): seq<seq<int>>
    requires |bufs| == |counts| == |displs| == |S| && 0 <= r <= |sp|
    requires forall j :: 0 <= j < |S| ==> SendState(S[j], sp, bufs[j], counts[j], displs[j])
  {
    seq(|S|, j requires 0 <= j < |S| =>
      SegmentOfState(S[j], sp, bufs[j], counts[j], displs[j], r);
      Segment(bufs[j], counts[j], displs[j], r))
  }

  /** What rank `r` receives from the all-to-all-v: segment `r` of every
      rank's send buffer, laid end to end in rank order at the receive
      displacements.  It is bucket `r` of all the items. */
  function Exchange(S: seq<seq<int>>, sp: seq<int>, bufs: seq<seq<int>>, counts: seq<seq<int>>,
                    displs: seq<seq<int>>, r: int): (recv: seq<int>)
    requires |bufs| == |counts| == |displs| == |S| && 0 <= r <= |sp|
    requires forall j :: 0 <= j < |S| ==> SendState(S[j], sp, bufs[j], counts[j], displs[j])
    ensures recv == Bucket(Flatten(S), sp, r)
  {
    ExchangeIsBucket(S, sp, bufs, counts, displs, r);
    Flatten(Segments(S, sp, bufs, counts, displs, r))
  }

  /** Segment `r` of a rank's send buffer is the rank's bucket `r`, so
      rank `r` receives bucket `r` of every rank, which concatenates to
      bucket `r` of all the items. */
  lemma ExchangeIsBucket(S: seq<seq<int>>, sp: seq<int>, bufs: seq<seq<int>>, counts: seq<seq<int>>,
                         displs: seq<seq<int>>, r: int)
    requires |bufs| == |counts| == |displs| == |S| && 0 <= r <= |sp|
    requires forall j :: 0 <= j < |S| ==> SendState(S[j], sp, bufs[j], counts[j], displs[j])
    ensures Flatten(Segments(S, sp, bufs, counts, displs, r)) == Bucket(Flatten(S), sp, r)
  {
    var segs := Segments(S, sp, bufs, counts, displs, r);
    forall j | 0 <= j < |S| ensures segs[j] == BucketsOf(S, sp, r)[j] {
      SegmentOfState(S[j], sp, bufs[j], counts[j], displs[j], r);
    }
    assert segs == BucketsOf(S, sp, r);
    BucketOfFlatten(S, sp, r);
  }

  /** Bucket `r` of every block. */
  function BucketsOf(S: seq<seq<int>>, sp: seq<int>, r: int): (c: seq<seq<int>>)
    ensures |c| == |S| && forall j :: 0 <= j < |S| ==> c[j] == Bucket(S[j], sp, r)
  {
    seq(|S|, j requires 0 <= j < |S| => Bucket(S[j], sp, r))
  }

  /** Segment `t` of the laid-out buckets, located by the prefix sums of the
      histogram, is bucket `t`. */
  lemma SegmentIsBucket(s: seq<int>, sp: seq<int>, t: int)
    requires 0 <= t <= |sp|
    ensures var H := Hist(s, sp, |sp| + 1);
            var D := PrefixSums(H);
            var F := Flatten(Buckets(s, sp, |sp| + 1));
            0 <= D[t] <= D[t] + H[t] <= |F| && F[D[t]..D[t] + H[t]] == Bucket(s, sp, t)
  {
    var P := |sp| + 1;
    var B := Buckets(s, sp, P);
    var H := Hist(s, sp, P);
    FlattenSplit(B, t);
    FlattenLength(B[..t]);
    assert Lens(B[..t]) == H[..t];
    PrefixSumsAt(H, t);
    SumPrefixMono(H, t, t);
  }

  /** Picking bucket `r` commutes with laying blocks end to end. */
  lemma {:induction false} BucketOfFlatten(S: seq<seq<int>>, sp: seq<int>, r: int)
    ensures Flatten(BucketsOf(S, sp, r)) == Bucket(Flatten(S), sp, r)
    decreases |S|
  {
    if S != [] {
      var n := |S| - 1;
      BucketOfFlatten(S[..n], sp, r);
      assert BucketsOf(S, sp, r)[..n] == BucketsOf(S[..n], sp, r);
      BucketAppend(Flatten(S[..n]), S[n], sp, r);
    }
  }

  /** The count rank `r` receives from the all-to-all, summed, is the
      length of what it receives from the all-to-all-v: `total_recv` is the
      size of bucket `r` of all the items. */
  lemma ReceivedCount(S: seq<seq<int>>, sp: seq<int>, counts: seq<seq<int>>, r: int)
    requires |counts| == |S| && 0 <= r <= |sp|
    requires forall j :: 0 <= j < |S| ==> counts[j] == Hist(S[j], sp, |sp| + 1) && |counts[j]| == |sp| + 1
    ensures Sum(Column(counts, r)) == |Bucket(Flatten(S), sp, r)|
  {
    assert Column(counts, r) == Lens(BucketsOf(S, sp, r));
    FlattenLength(BucketsOf(S, sp, r));
    BucketOfFlatten(S, sp, r);
  }

  /** The final blocks of the ranks, each a sorted permutation of its
      bucket, are in order end to end and hold all the items. */
  lemma SortedBuckets(finals: seq<seq<int>>, all: seq<int>, sp: seq<int>)
    requires |finals| == |sp| + 1
    requires forall r :: 0 <= r < |finals| ==>
               Sorted(finals[r], IntLe) && multiset(finals[r]) == multiset(Bucket(all, sp, r))
    ensures Sorted(Flatten(finals), IntLe)
    ensures multiset(Flatten(finals)) == multiset(all)
  {
    var P := |sp| + 1;
    forall t, u, x, y | 0 <= t < u < P && x in finals[t] && y in finals[u] ensures IntLe(x, y) {
      assert x in multiset(Bucket(all, sp, t)) && y in multiset(Bucket(all, sp, u));
      BucketMembers(all, sp, t, x);
      BucketMembers(all, sp, u, y);
      TargetOrders(x, y, sp);
    }
    SortedFlatten(finals, IntLe);
    FlattenSameBlocks(finals, Buckets(all, sp, P));
    BucketsPartition(all, sp, P);
  }

  /** Steps 1 and 2 on one rank: sort the block, then read the `P - 1`
      local splitters off it at the regular-sampling positions. */
  method LocalSortAndSample(arr: array<int>, P: int) returns (localSplitters: array<int>)
    requires P >= 1 && arr.Length >= 1
    modifies arr
    ensures Sorted(arr[..], IntLe) && multiset(arr[..]) == old(multiset(arr[..]))
    ensures localSplitters[..] == Samples(arr[..], P) && Sorted(localSplitters[..], IntLe)
  {
    IntLeIsTotalOrder();
    var n := arr.Length;
    ghost var s0 := arr[..];
    assert s0 == arr[0..n - 1 + 1];
    SplitSort.SplitSort(arr, 0, n - 1, IntLe);
    ghost var s1 := arr[..];
    assert s1 == arr[0..n - 1 + 1] == arr[..n];
    localSplitters := SelectSplitters(arr, n, P);
    SamplesSorted(s1, P, IntLe);
  }

  /** Steps 1 and 2 on every rank. */
  method SortAndSampleAll(locals: seq<seq<int>>, P: int) returns (sorted: seq<seq<int>>, picks: seq<seq<int>>)
    requires P >= 1 && |locals| == P
    requires forall r :: 0 <= r < P ==> |locals[r]| >= 1
    ensures |sorted| == |picks| == P
    ensures forall j :: 0 <= j < P ==>
              Sorted(sorted[j], IntLe) && multiset(sorted[j]) == multiset(locals[j]) &&
              picks[j] == Samples(sorted[j], P) && |picks[j]| == P - 1
  {
    sorted, picks := [], [];
    for r := 0 to P
      invariant |sorted| == |picks| == r
      invariant forall j :: 0 <= j < r ==>
                  Sorted(sorted[j], IntLe) && multiset(sorted[j]) == multiset(locals[j]) &&
                  picks[j] == Samples(sorted[j], P) && |picks[j]| == P - 1
    {
      var arr := FromSeq(locals[r]);
      var ls := LocalSortAndSample(arr, P);
      sorted := sorted + [arr[..]];
      picks := picks + [ls[..]];
    }
  }

  /** Step 6 up to the all-to-all: every rank's histogram of targets,
      computed against its own copy of the broadcast splitters. */
  method CountAll(sorted: seq<seq<int>>, sp: seq<int>) returns (sendCounts: seq<seq<int>>)
    ensures |sendCounts| == |sorted|
    ensures forall j :: 0 <= j < |sorted| ==>
              sendCounts[j] == Hist(sorted[j], sp, |sp| + 1) && |sendCounts[j]| == |sp| + 1
  {
    sendCounts := [];
    for r := 0 to |sorted|
      invariant |sendCounts| == r
      invariant forall j :: 0 <= j < r ==>
                  sendCounts[j] == Hist(sorted[j], sp, |sp| + 1) && |sendCounts[j]| == |sp| + 1
    {
      var counts := CountRank(sorted[r], sp);
      sendCounts := sendCounts + [counts];
    }
  }

  /** One rank's histogram loop. */
  method CountRank(s: seq<int>, sp: seq<int>) returns (counts: seq<int>)
    ensures counts == Hist(s, sp, |sp| + 1) && |counts| == |sp| + 1
  {
    var arr := FromSeq(s);
    var splitters := FromSeq(sp);
    var c := SendCounts(arr, splitters);
    counts := c[..];
  }

  /** The first `|bufs|` ranks have laid out their send buffers and know
      how many items they will receive. */
  ghost predicate Laid(sorted: seq<seq<int>>, sp: seq<int>, sendCounts: seq<seq<int>>,
                       bufs: seq<seq<int>>, sendDispls: seq<seq<int>>, totals: seq<int>) {
    |bufs| == |sendDispls| == |totals| <= |sorted| == |sendCounts| == |sp| + 1 &&
    (forall k :: 0 <= k < |sendCounts| ==> |sendCounts[k]| == |sp| + 1) &&
    forall j :: 0 <= j < |bufs| ==>
      SendState(sorted[j], sp, bufs[j], sendCounts[j], sendDispls[j]) && totals[j] == Sum(Column(sendCounts, j))
  }

  /** One more rank laid out. */
  lemma LaidSnoc(sorted: seq<seq<int>>, sp: seq<int>, sendCounts: seq<seq<int>>,
                 bufs: seq<seq<int>>, sendDispls: seq<seq<int>>, totals: seq<int>,
                 buf: seq<int>, sd: seq<int>, total: int)
    requires Laid(sorted, sp, sendCounts, bufs, sendDispls, totals) && |bufs| < |sorted|
    requires SendState(sorted[|bufs|], sp, buf, sendCounts[|bufs|], sd)
    requires total == Sum(Column(sendCounts, |bufs|))
    ensures Laid(sorted, sp, sendCounts, bufs + [buf], sendDispls + [sd], totals + [total])
  {
    var bufs', sendDispls', totals' := bufs + [buf], sendDispls + [sd], totals + [total];
    forall j | 0 <= j < |bufs'|
      ensures SendState(sorted[j], sp, bufs'[j], sendCounts[j], sendDispls'[j])
      ensures totals'[j] == Sum(Column(sendCounts, j))
    {
      if j < |bufs| {
        assert bufs'[j] == bufs[j] && sendDispls'[j] == sendDispls[j] && totals'[j] == totals[j];
      }
    }
  }

  /** The all-to-all of the counts, then on every rank the displacements,
      `total_recv` and the send buffer. */
  method LayoutAll(sorted: seq<seq<int>>, sp: seq<int>, sendCounts: seq<seq<int>>)
    returns (bufs: seq<seq<int>>, sendDispls: seq<seq<int>>, totals: seq<int>)
    requires |sendCounts| == |sorted| == |sp| + 1
    requires forall j :: 0 <= j < |sorted| ==>
               sendCounts[j] == Hist(sorted[j], sp, |sp| + 1) && |sendCounts[j]| == |sp| + 1
    ensures Laid(sorted, sp, sendCounts, bufs, sendDispls, totals) && |bufs| == |sorted|
  {
    bufs, sendDispls, totals := [], [], [];
    for r := 0 to |sorted|
      invariant Laid(sorted, sp, sendCounts, bufs, sendDispls, totals) && |bufs| == r
    {
      var buf, sd, totalRecv := LayoutRank(sorted[r], sp, sendCounts, r);
      LaidSnoc(sorted, sp, sendCounts, bufs, sendDispls, totals, buf, sd, totalRecv);
      bufs := bufs + [buf];
      sendDispls := sendDispls + [sd];
      totals := totals + [totalRecv];
    }
  }

  /** Rank `r`'s displacements, `total_recv` and send buffer, from its
      items, its send counts and the counts it receives. */
  method LayoutRank(s: seq<int>, sp: seq<int>, sendCounts: seq<seq<int>>, r: int)
    returns (buf: seq<int>, sendDispls: seq<int>, totalRecv: int)
    requires 0 <= r < |sendCounts| == |sp| + 1
    requires forall j :: 0 <= j < |sendCounts| ==> |sendCounts[j]| == |sp| + 1
    requires sendCounts[r] == Hist(s, sp, |sp| + 1)
    ensures SendState(s, sp, buf, sendCounts[r], sendDispls)
    ensures totalRecv == Sum(Column(sendCounts, r))
  {
    var sc := FromSeq(sendCounts[r]);
    var rc := FromSeq(Column(sendCounts, r));
    var sd, rd, total := Displacements(sc, rc);
    var arr := FromSeq(s);
    var splitters := FromSeq(sp);
    var b, temp := BuildSendBuffer(arr, splitters, sc, sd);
    buf, sendDispls, totalRecv := b[..], sd[..], total;
  }

  /** The first `|finals|` ranks hold their final blocks: bucket `r` of
      all the items, sorted, `total_recv` of them. */
  ghost predicate Received(finals: seq<seq<int>>, sorted: seq<seq<int>>, sp: seq<int>, totals: seq<int>) {
    |finals| <= |totals| &&
    forall j :: 0 <= j < |finals| ==>
      Sorted(finals[j], IntLe) && multiset(finals[j]) == multiset(Bucket(Flatten(sorted), sp, j)) &&
      |finals[j]| == totals[j]
  }

  /** The all-to-all-v of the items, then step 7 on every rank: rank `r`
      ends with bucket `r` of all the items, sorted, and `local_n` becomes
      `total_recv`. */
  method ExchangeAll(sorted: seq<seq<int>>, sp: seq<int>, bufs: seq<seq<int>>, sendCounts: seq<seq<int>>,
                     sendDispls: seq<seq<int>>, totals: seq<int>) returns (finals: seq<seq<int>>)
    requires Laid(sorted, sp, sendCounts, bufs, sendDispls, totals) && |bufs| == |sorted|
    ensures Received(finals, sorted, sp, totals) && |finals| == |sorted|
  {
    finals := [];
    for r := 0 to |sorted|
      invariant Received(finals, sorted, sp, totals) && |finals| == r
    {
      var final := ReceiveAndSort(sorted, sp, bufs, sendCounts, sendDispls, totals, r);
      ReceivedSnoc(finals, sorted, sp, totals, final);
      finals := finals + [final];
    }
  }

  /** One more rank holds its final block. */
  lemma ReceivedSnoc(finals: seq<seq<int>>, sorted: seq<seq<int>>, sp: seq<int>, totals: seq<int>, final: seq<int>)
    requires Received(finals, sorted, sp, totals) && |finals| < |totals|
    requires Sorted(final, IntLe) && multiset(final) == multiset(Bucket(Flatten(sorted), sp, |finals|))
    requires |final| == totals[|finals|]
    ensures Received(finals + [final], sorted, sp, totals)
  {
    var finals' := finals + [final];
    forall j | 0 <= j < |finals'|
      ensures Sorted(finals'[j], IntLe) && multiset(finals'[j]) == multiset(Bucket(Flatten(sorted), sp, j))
      ensures |finals'[j]| == totals[j]
    {
      if j < |finals| {
        assert finals'[j] == finals[j];
      }
    }
  }

  /** Rank `r`'s part of the all-to-all-v and step 7. */
  method ReceiveAndSort(sorted: seq<seq<int>>, sp: seq<int>, bufs: seq<seq<int>>, sendCounts: seq<seq<int>>,
                        sendDispls: seq<seq<int>>, totals: seq<int>, r: int) returns (final: seq<int>)
    requires Laid(sorted, sp, sendCounts, bufs, sendDispls, totals) && |bufs| == |sorted| && 0 <= r <= |sp|
    ensures Sorted(final, IntLe) && multiset(final) == multiset(Bucket(Flatten(sorted), sp, r))
    ensures |final| == totals[r]
  {
    LaidSent(sorted, sp, sendCounts, bufs, sendDispls, totals);
    var received := Exchange(sorted, sp, bufs, sendCounts, sendDispls, r);
    ReceivedCount(sorted, sp, sendCounts, r);
    final := SortBlock(received);
  }

  /** What a fully laid-out state gives the exchange. */
  lemma LaidSent(sorted: seq<seq<int>>, sp: seq<int>, sendCounts: seq<seq<int>>,
                 bufs: seq<seq<int>>, sendDispls: seq<seq<int>>, totals: seq<int>)
    requires Laid(sorted, sp, sendCounts, bufs, sendDispls, totals) && |bufs| == |sorted|
    ensures |bufs| == |sendCounts| == |sendDispls| == |totals| == |sorted| == |sp| + 1
    ensures forall j :: 0 <= j < |sorted| ==> SendState(sorted[j], sp, bufs[j], sendCounts[j], sendDispls[j])
    ensures forall j :: 0 <= j < |sorted| ==>
              sendCounts[j] == Hist(sorted[j], sp, |sp| + 1) && |sendCounts[j]| == |sp| + 1
    ensures forall j :: 0 <= j < |sorted| ==> totals[j] == Sum(Column(sendCounts, j))
  {
  }

  /** Step 7 on one rank: the split sort of the received block. */
  method SortBlock(s: seq<int>) returns (final: seq<int>)
    ensures Sorted(final, IntLe) && multiset(final) == multiset(s) && |final| == |s|
  {
    IntLeIsTotalOrder();
    var arr := FromSeq(s);
    var n := arr.Length;
    assert s == arr[0..n - 1 + 1];
    SplitSort.SplitSort(arr, 0, n - 1, IntLe);
    final := arr[..];
    assert final == arr[0..n - 1 + 1];
  }

  /** The whole sort over `P` ranks holding the blocks `locals`, step by
      step: local sort and sampling, gather and global selection on the
      root, broadcast, histogram, all-to-all of the counts, displacements,
      send buffer, all-to-all-v of the items and the final local sort.  The
      final blocks, read in rank order, are sorted and hold exactly the
      items the ranks started with. */
  method ParallelSplitSort(locals: seq<seq<int>>, P: int) returns (finals: seq<seq<int>>)
    requires P >= 1 && |locals| == P
    requires forall r :: 0 <= r < P ==> |locals[r]| >= 1
    ensures |finals| == P
    ensures Sorted(Flatten(finals), IntLe)
    ensures multiset(Flatten(finals)) == multiset(Flatten(locals))
  {
    IntLeIsTotalOrder();
    var sorted, picks := SortAndSampleAll(locals, P);
    var gathered := GatherSplitters(picks, P, P - 1);
    var all := FromSeq(gathered[..]);
    var splitters := ChooseGlobalSplitters(all, P, IntLe);
    var sp := splitters[..];
    var sendCounts := CountAll(sorted, sp);
    var bufs, sendDispls, totals := LayoutAll(sorted, sp, sendCounts);
    finals := ExchangeAll(sorted, sp, bufs, sendCounts, sendDispls, totals);
    SortedBuckets(finals, Flatten(sorted), sp);
    FlattenSameBlocks(sorted, locals);
  }
}
