/** Redistribution in the numbers sample sort: each element goes to the rank
    of the first global splitter it does not exceed (the last rank when it
    exceeds them all).  Every rank counts how many of its elements go to
    each rank, turns the counts into displacements and lays out a send
    buffer grouped by target rank, in the order the elements appear. */
module Routing {
  import opened Order
  import opened Seqs

  /** The first-fit search from splitter `t0` on. */
  function TargetFrom(x: int, sp: seq<int>, t0: int): (t: int)
    requires 0 <= t0 <= |sp|
    ensures t0 <= t <= |sp|
    ensures t < |sp| ==> x <= sp[t]
    ensures forall u :: t0 <= u < t ==> x > sp[u]
    decreases |sp| - t0
  {
    if t0 < |sp| && x > sp[t0] then TargetFrom(x, sp, t0 + 1) else t0
  }

  /** The rank element `x` is sent to, given the `P - 1` global splitters:
      the first `t` with `x <= sp[t]`, or `P - 1` when there is none.  So an
      element equal to a splitter goes to the lower of the two ranks. */
  function Target(x: int, sp: seq<int>): (t: int)
    ensures 0 <= t <= |sp|
    ensures t < |sp| ==> x <= sp[t]
    ensures forall u :: 0 <= u < t ==> x > sp[u]
  {
    TargetFrom(x, sp, 0)
  }

  /** A larger element never goes to a lower rank.  No order on the
      splitters is needed for this. */
  lemma TargetMono(x: int, y: int, sp: seq<int>)
    requires x <= y
    ensures Target(x, sp) <= Target(y, sp)
  {
    var t := Target(y, sp);
    if t < |sp| {
      assert x <= sp[t];
    }
  }

  /** Elements sent to a lower rank are smaller than those sent to a higher one. */
  lemma TargetOrders(x: int, y: int, sp: seq<int>)
    requires Target(x, sp) < Target(y, sp)
    ensures x < y
  {
    if y <= x {
      TargetMono(y, x, sp);
    }
  }

  /** The elements of `s` sent to rank `t`, in their order in `s`. */
  function Bucket(s: seq<int>, sp: seq<int>, t: int): (b: seq<int>)
    ensures |b| <= |s|
    decreases |s|
  {
    if s == [] then []
    else Bucket(s[..|s| - 1], sp, t) + (if Target(s[|s| - 1], sp) == t then [s[|s| - 1]] else [])
  }

  /** The buckets of all `P` ranks. */
  function Buckets(s: seq<int>, sp: seq<int>, P: int): (B: seq<seq<int>>)
    requires P >= 0
    ensures |B| == P && forall t :: 0 <= t < P ==> B[t] == Bucket(s, sp, t)
  {
    seq(P, t requires 0 <= t < P => Bucket(s, sp, t))
  }

  /** The histogram of targets: how many elements of `s` go to each rank. */
  function Hist(s: seq<int>, sp: seq<int>, P: int): (h: seq<int>)
    requires P >= 0
    ensures |h| == P && forall t :: 0 <= t < P ==> h[t] == |Bucket(s, sp, t)|
  {
    Lens(Buckets(s, sp, P))
  }

  /** Bucket `t` holds exactly the elements of `s` whose target is `t`. */
  lemma {:induction false} BucketMembers(s: seq<int>, sp: seq<int>, t: int, x: int)
    ensures x in Bucket(s, sp, t) <==> x in s && Target(x, sp) == t
    decreases |s|
  {
    if s != [] {
      var n := |s| - 1;
      BucketMembers(s[..n], sp, t, x);
      assert s == s[..n] + [s[n]];
    }
  }

  /** Routing a concatenation routes each part: the bucket of `s1 + s2` is
      the bucket of `s1` followed by the bucket of `s2`. */
  lemma {:induction false} BucketAppend(s1: seq<int>, s2: seq<int>, sp: seq<int>, t: int)
    ensures Bucket(s1 + s2, sp, t) == Bucket(s1, sp, t) + Bucket(s2, sp, t)
    decreases |s2|
  {
    if s2 == [] {
      assert s1 + s2 == s1;
    } else {
      var n := |s2| - 1;
      JoinDropLast(s1, s2);
      BucketAppend(s1, s2[..n], sp, t);
    }
  }

  /** One more element of `s` extends the bucket of its target by that
      element and leaves the other buckets as they are. */
  lemma BucketSnoc(s: seq<int>, sp: seq<int>, i: int, t: int)
    requires 0 <= i < |s|
    ensures Bucket(s[..i + 1], sp, t) == Bucket(s[..i], sp, t) + (if Target(s[i], sp) == t then [s[i]] else [])
  {
    assert s[..i + 1][..i] == s[..i];
  }

  /** The histogram after one more element: the count of its target grows by one. */
  lemma HistSnoc(s: seq<int>, sp: seq<int>, P: int, i: int)
    requires 0 <= i < |s| && P == |sp| + 1
    ensures Hist(s[..i + 1], sp, P) == Hist(s[..i], sp, P)[Target(s[i], sp) := Hist(s[..i], sp, P)[Target(s[i], sp)] + 1]
  {
    forall t | 0 <= t < P ensures Hist(s[..i + 1], sp, P)[t] == Hist(s[..i], sp, P)[t] + (if Target(s[i], sp) == t then 1 else 0) {
      BucketSnoc(s, sp, i, t);
    }
  }

  /** No element is lost or invented: the buckets laid end to end are a
      permutation of `s`. */
  lemma {:induction false} BucketsPartition(s: seq<int>, sp: seq<int>, P: int)
    requires P == |sp| + 1
    ensures multiset(Flatten(Buckets(s, sp, P))) == multiset(s)
    decreases |s|
  {
    if s == [] {
      FlattenEmpty(Buckets(s, sp, P));
    } else {
      var n := |s| - 1;
      var x, t := s[n], Target(s[n], sp);
      var B := Buckets(s[..n], sp, P);
      BucketsPartition(s[..n], sp, P);
      BucketsSnoc(s, sp, P, n);
      assert s[..n + 1] == s;
      assert Buckets(s, sp, P) == B[t := B[t] + [x]];
      FlattenGrow(B, t, x);
      assert multiset(s) == multiset(s[..n]) + multiset{x};
    }
  }

  /** One more element adds it at the end of the bucket of its target. */
  lemma BucketsSnoc(s: seq<int>, sp: seq<int>, P: int, i: int)
    requires 0 <= i < |s| && P == |sp| + 1
    ensures s[..i + 1] == s[..i] + [s[i]]
    ensures Buckets(s[..i + 1], sp, P) == Buckets(s[..i], sp, P)[Target(s[i], sp) := Bucket(s[..i], sp, Target(s[i], sp)) + [s[i]]]
  {
    var t := Target(s[i], sp);
    var B, B' := Buckets(s[..i], sp, P), Buckets(s[..i + 1], sp, P);
    var C := B[t := B[t] + [s[i]]];
    forall u | 0 <= u < P ensures B'[u] == C[u] {
      BucketSnoc(s, sp, i, u);
    }
    assert B' == C;
    assert s[..i + 1] == s[..i] + [s[i]];
  }

  /** The histogram adds up to the number of elements. */
  lemma HistSum(s: seq<int>, sp: seq<int>, P: int)
    requires P == |sp| + 1
    ensures Sum(Hist(s, sp, P)) == |s|
  {
    BucketsPartition(s, sp, P);
    FlattenLength(Buckets(s, sp, P));
    assert |multiset(Flatten(Buckets(s, sp, P)))| == |multiset(s)|;
  }

  /** A prefix of the elements fills at most as much of a bucket as all of them. */
  lemma BucketPrefixLength(s: seq<int>, sp: seq<int>, j: int, t: int)
    requires 0 <= j <= |s|
    ensures |Bucket(s[..j], sp, t)| <= |Bucket(s, sp, t)|
  {
    BucketAppend(s[..j], s[j..], sp, t);
    assert s[..j] + s[j..] == s;
  }

  /** The search loop for the target rank of `element`. */
  method FindTarget(element: int, sp: array<int>) returns (target: int)
    ensures target == Target(element, sp[..])
  {
    target := 0;
    while target < sp.Length && element > sp[target]
      invariant 0 <= target <= sp.Length
      invariant TargetFrom(element, sp[..], target) == Target(element, sp[..])
    {
      target := target + 1;
    }
  }

  /** The histogram loop: `send_counts[t]` is how many local elements go to rank `t`. */
  method SendCounts(a: array<int>, sp: array<int>) returns (counts: array<int>)
    ensures counts.Length == sp.Length + 1 && counts[..] == Hist(a[..], sp[..], sp.Length + 1)
  {
    var P := sp.Length + 1;
    counts := new int[P](_ => 0);
    ghost var s, S := a[..], sp[..];
    assert s[..0] == [];
    assert counts[..] == Hist(s[..0], S, P);
    var i := 0;
    while i < a.Length
      invariant 0 <= i <= a.Length
      invariant counts[..] == Hist(s[..i], S, P)
    {
      var element := a[i];
      var target := FindTarget(element, sp);
      HistSnoc(s, S, P, i);
      counts[target] := counts[target] + 1;
      i := i + 1;
    }
    assert s[..a.Length] == s;
  }

  /** The loop that turns the send and receive counts into displacements
      (exclusive prefix sums), and the number of elements to receive. */
  method Displacements(sendCounts: array<int>, recvCounts: array<int>)
    returns (sendDispls: array<int>, recvDispls: array<int>, totalRecv: int)
    requires sendCounts.Length == recvCounts.Length >= 1
    ensures sendDispls.Length == recvDispls.Length == sendCounts.Length
    ensures sendDispls[..] == PrefixSums(sendCounts[..]) && recvDispls[..] == PrefixSums(recvCounts[..])
    ensures totalRecv == Sum(recvCounts[..])
  {
    var P := sendCounts.Length;
    sendDispls := new int[P];
    recvDispls := new int[P];
    ghost var SD, RD := PrefixSums(sendCounts[..]), PrefixSums(recvCounts[..]);
    sendDispls[0], recvDispls[0] := 0, 0;
    PrefixSumsStep(sendCounts[..], 0);
    PrefixSumsStep(recvCounts[..], 0);
    var i := 1;
    while i < P
      invariant 1 <= i <= P
      invariant forall r :: 0 <= r < i ==> sendDispls[r] == SD[r] && recvDispls[r] == RD[r]
    {
      PrefixSumsStep(sendCounts[..], i);
      PrefixSumsStep(recvCounts[..], i);
      sendDispls[i] := sendDispls[i - 1] + sendCounts[i - 1];
      recvDispls[i] := recvDispls[i - 1] + recvCounts[i - 1];
      i := i + 1;
    }
    assert sendDispls[..] == SD && recvDispls[..] == RD;
    totalRecv := recvDispls[P - 1] + recvCounts[P - 1];
    PrefixSumsLast(recvCounts[..]);
  }

  /** The part of each bucket made of the first `i` elements is no longer
      than the whole bucket, and strictly shorter for the target of element `i`. */
  lemma BucketsSoFar(s: seq<int>, sp: seq<int>, P: int, i: int)
    requires 0 <= i < |s| && P == |sp| + 1
    ensures forall u :: 0 <= u < P ==> |Buckets(s[..i], sp, P)[u]| <= Hist(s, sp, P)[u]
    ensures |Buckets(s[..i], sp, P)[Target(s[i], sp)]| < Hist(s, sp, P)[Target(s[i], sp)]
  {
    forall u | 0 <= u < P ensures |Bucket(s[..i], sp, u)| <= |Bucket(s, sp, u)| {
      BucketPrefixLength(s, sp, i, u);
    }
    BucketSnoc(s, sp, i, Target(s[i], sp));
    BucketPrefixLength(s, sp, i + 1, Target(s[i], sp));
  }

  /** What routing element `i` does to the buckets of the first `i` elements. */
  lemma RouteStep(s: seq<int>, sp: seq<int>, P: int, i: int, bs: seq<seq<int>>, H: seq<int>)
    requires 0 <= i < |s| && P == |sp| + 1
    requires bs == Buckets(s[..i], sp, P) && H == Hist(s, sp, P)
    ensures forall u :: 0 <= u < |bs| ==> |bs[u]| <= H[u]
    ensures |bs[Target(s[i], sp)]| < H[Target(s[i], sp)]
    ensures Buckets(s[..i + 1], sp, P) == bs[Target(s[i], sp) := bs[Target(s[i], sp)] + [s[i]]]
  {
    BucketsSoFar(s, sp, P, i);
    BucketsSnoc(s, sp, P, i);
  }

  /** The segments of the send buffer: bucket `t` gets `[D[t], D[t] + H[t])`
      with `H` the histogram and `D` its prefix sums, and these segments
      tile the buffer. */
  lemma SendLayout(s: seq<int>, sp: seq<int>, P: int)
    requires P == |sp| + 1
    ensures Disjoint(PrefixSums(Hist(s, sp, P)), Hist(s, sp, P), |s|)
    ensures Tiles(PrefixSums(Hist(s, sp, P)), Hist(s, sp, P), |s|)
  {
    HistSum(s, sp, P);
    PrefixSumsDisjoint(Hist(s, sp, P));
    PrefixSumsTile(Hist(s, sp, P));
  }

  /** The placement loop: each element is written to the next free slot of
      its target's segment, `send_displs[t] + temp_counts[t]`.  The buffer
      ends up grouped by target, each group in the original order, and the
      running counts end equal to the histogram. */
  method BuildSendBuffer(a: array<int>, sp: array<int>, counts: array<int>, displs: array<int>)
    returns (buf: array<int>, temp: array<int>)
    requires counts.Length == displs.Length == sp.Length + 1
    requires counts[..] == Hist(a[..], sp[..], sp.Length + 1)
    requires displs[..] == PrefixSums(counts[..])
    ensures buf.Length == a.Length && buf[..] == Flatten(Buckets(a[..], sp[..], sp.Length + 1))
    ensures temp[..] == counts[..]
  {
    var P := sp.Length + 1;
    ghost var s, S := a[..], sp[..];
    ghost var H := counts[..];
    ghost var D := PrefixSums(H);
    SendLayout(s, S, P);
    assert displs[..] == D;
    buf := new int[a.Length];
    temp := new int[P](_ => 0);
    assert forall t :: 0 <= t < P ==> temp[t] == 0;
    PlaceAll(a, sp, displs, buf, temp, H, D);
    PlacedIsFlatten(buf[..], Buckets(s, S, P), D, H);
  }

  /** The placement loop itself, over the buckets of the elements seen so far. */
  method PlaceAll(a: array<int>, sp: array<int>, displs: array<int>, buf: array<int>, temp: array<int>,
                  ghost H: seq<int>, ghost D: seq<int>)
    requires buf != temp && temp != displs && buf != displs && buf != a && temp != a && buf != sp && temp != sp
    requires temp.Length == displs.Length == sp.Length + 1 && buf.Length == a.Length
    requires H == Hist(a[..], sp[..], sp.Length + 1) && Disjoint(D, H, a.Length) && displs[..] == D
    requires forall t :: 0 <= t < temp.Length ==> temp[t] == 0
    modifies buf, temp
    ensures Placed(buf[..], Buckets(a[..], sp[..], sp.Length + 1), D)
    ensures temp[..] == H
  {
    var P := sp.Length + 1;
    ghost var s, S := a[..], sp[..];
    assert s[..0] == [];
    ghost var bs := Buckets(s[..0], S, P);
    PlacedStart(buf[..], bs, D, H);
    var i := 0;
    while i < a.Length
      invariant 0 <= i <= a.Length && |bs| == P
      invariant bs == Buckets(s[..i], S, P)
      invariant forall t :: 0 <= t < P ==> temp[t] == |bs[t]|
      invariant Placed(buf[..], bs, D)
    {
      var element := a[i];
      var target := FindTarget(element, sp);
      assert element == s[i] && target == Target(s[i], S);
      RouteStep(s, S, P, i, bs, H);
      PlaceElement(buf, temp, displs, target, element, bs, D, H);
      bs := bs[target := bs[target] + [element]];
      i := i + 1;
    }
    assert s[..a.Length] == s;
    assert temp[..] == H;
  }

  /** One pass of the placement loop: `send_buffer[pos] = element` with
      `pos = send_displs[target] + temp_counts[target]`, then
      `temp_counts[target]++`.  This appends the element to the part of its
      target's bucket placed so far. */
  method PlaceElement(buf: array<int>, temp: array<int>, displs: array<int>, target: int, element: int,
                      ghost bs: seq<seq<int>>, ghost D: seq<int>, ghost H: seq<int>)
    requires buf != temp && temp != displs && buf != displs
    requires |bs| == |H| == temp.Length && 0 <= target < |bs|
    requires Disjoint(D, H, buf.Length) && displs[..] == D
    requires forall u :: 0 <= u < |bs| ==> |bs[u]| <= H[u] && temp[u] == |bs[u]|
    requires |bs[target]| < H[target]
    requires Placed(buf[..], bs, D)
    modifies buf, temp
    ensures Placed(buf[..], bs[target := bs[target] + [element]], D)
    ensures forall u :: 0 <= u < |bs| ==> temp[u] == |bs[target := bs[target] + [element]][u]|
    ensures displs[..] == D
  {
    NextSlotInRange(bs, D, H, target, buf.Length);
    var pos := displs[target] + temp[target];
    ghost var prev := buf[..];
    buf[pos] := element;
    PlaceNext(prev, buf[..], bs, D, H, target, element);
    temp[target] := temp[target] + 1;
  }
}
