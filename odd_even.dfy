/** The odd-even transposition sort over blocks of DNA strings.  Every rank
    sorts its block, then the ranks run `P` rounds; in each round a rank
    either idles or performs a compare-split with a neighbour: both send
    each other their blocks, both merge the two blocks, the lower rank keeps
    the smallest `local_size` strings of the merge and the upper rank the
    largest.  The exchange itself is replaced by reading the partner's block
    from the sequence of all blocks, so one round is a function of the blocks
    before it. */
module OddEven {
  import opened Order
  import opened Seqs
  import opened CString
  import TwoWayMerge
  import SplitSort

  /** `merge_sorted_arrays`: the merge of `arr1[..size1]` and
      `arr2[..size2]`, ties to `arr1`, written to the front of `result`. */
  method MergeSortedArrays(arr1: array<string>, size1: int, arr2: array<string>, size2: int, result: array<string>)
    requires 0 <= size1 <= arr1.Length && 0 <= size2 <= arr2.Length && size1 + size2 <= result.Length
    requires result != arr1 && result != arr2
    modifies result
    ensures result[..size1 + size2] == Merged(arr1[..size1], arr2[..size2], StrLe)
    ensures multiset(result[..size1 + size2]) == multiset(arr1[..size1]) + multiset(arr2[..size2])
    ensures Sorted(arr1[..size1], StrLe) && Sorted(arr2[..size2], StrLe) ==> Sorted(result[..size1 + size2], StrLe)
    ensures result[size1 + size2..] == old(result[size1 + size2..])
  {
    ghost var s0 := result[..];
    ghost var M := Merged(arr1[..size1], arr2[..size2], StrLe);
    TwoWayMerge.WriteMerge(result, 0, arr1[..size1], arr2[..size2], StrLe, M);
    TwoWayMerge.WrittenWhole(s0, result[..], 0, M);
    MergedMultiset(arr1[..size1], arr2[..size2], StrLe);
    StrLeIsTotalOrder();
    if Sorted(arr1[..size1], StrLe) && Sorted(arr2[..size2], StrLe) {
      MergedSorted(arr1[..size1], arr2[..size2], StrLe);
    }
  }

  /** What a rank keeps of a compare-split: of the merge of its own block
      and its partner's, the first `|local|` strings when it keeps the
      smaller ones, otherwise the strings from position `|partner|` on. */
  function CompareSplit(local: seq<string>, partner: seq<string>, keepSmaller: bool): (kept: seq<string>)
    ensures |kept| == |local|
  {
    var merged := Merged(local, partner, StrLe);
    if keepSmaller then merged[..|local|] else merged[|partner|..]
  }

  /** The keep-half copy of `compare_separate`: `local_size` cells of
      `merged` overwrite the front of `local_data`, from position 0 or from
      position `partner_size`. */
  method KeepHalf(localData: array<string>, localSize: int, merged: array<string>, partnerSize: int, keepSmaller: bool)
    requires 0 <= localSize <= localData.Length && 0 <= partnerSize && localSize + partnerSize <= merged.Length
    requires localData != merged
    modifies localData
    ensures keepSmaller ==> localData[..localSize] == merged[..localSize]
    ensures !keepSmaller ==> localData[..localSize] == merged[partnerSize..partnerSize + localSize]
    ensures localData[localSize..] == old(localData[localSize..])
  {
    var from := if keepSmaller then 0 else partnerSize;
    for i := 0 to localSize
      invariant forall k :: 0 <= k < i ==> localData[k] == merged[from + k]
      invariant forall k :: localSize <= k < localData.Length ==> localData[k] == old(localData[k])
    {
      localData[i] := merged[from + i];
    }
    assert localData[..localSize] == merged[from..from + localSize];
  }

  /** `compare_separate` on one rank: `partnerData` is the block the
      partner sends; the front `local_size` cells of `local_data` end up
      holding the rank's share of the merge, and `local_size` does not
      change. */
  method CompareSeparate(localData: array<string>, localSize: int, partnerData: seq<string>, keepSmaller: bool)
    requires 0 <= localSize <= localData.Length
    modifies localData
    ensures localData[..localSize] == CompareSplit(old(localData[..localSize]), partnerData, keepSmaller)
    ensures localData[localSize..] == old(localData[localSize..])
  {
    ghost var mine := localData[..localSize];
    var partner := FromSeq(partnerData);
    var partnerSize := partner.Length;
    var merged := new string[localSize + partnerSize];
    MergeSortedArrays(localData, localSize, partner, partnerSize, merged);
    assert partner[..partnerSize] == partnerData;
    assert merged[..] == merged[..localSize + partnerSize] == Merged(mine, partnerData, StrLe);
    KeepHalf(localData, localSize, merged, partnerSize, keepSmaller);
  }

  /** A rank's sorted share of a compare-split of sorted blocks is sorted. */
  lemma CompareSplitSorted(local: seq<string>, partner: seq<string>, keepSmaller: bool)
    requires Sorted(local, StrLe) && Sorted(partner, StrLe)
    ensures Sorted(CompareSplit(local, partner, keepSmaller), StrLe)
  {
    StrLeIsTotalOrder();
    MergedSorted(local, partner, StrLe);
    var merged := Merged(local, partner, StrLe);
    if !keepSmaller {
      SortedSuffix(merged, |partner|, StrLe);
    }
  }

  /** The two halves of a compare-split between a lower rank (keeping the
      smaller strings) and an upper rank (keeping the larger ones): both
      ranks compute the same merge, the lower share followed by the upper
      share is that merge, nothing is lost or duplicated, both shares are
      sorted and every string kept below is `strcmp`-below every string kept
      above. */
  lemma {:induction false} PairSplit(lower: seq<string>, upper: seq<string>)
    requires Sorted(lower, StrLe) && Sorted(upper, StrLe)
    ensures CompareSplit(lower, upper, true) + CompareSplit(upper, lower, false) == Merged(lower, upper, StrLe)
    ensures multiset(CompareSplit(lower, upper, true)) + multiset(CompareSplit(upper, lower, false))
              == multiset(lower) + multiset(upper)
    ensures Sorted(CompareSplit(lower, upper, true), StrLe) && Sorted(CompareSplit(upper, lower, false), StrLe)
    ensures forall x, y :: x in CompareSplit(lower, upper, true) && y in CompareSplit(upper, lower, false) ==> StrLe(x, y)
  {
    StrLeIsTotalOrder();
    var m := Merged(lower, upper, StrLe);
    MergedCommutes(lower, upper, StrLe);
    MergedSorted(lower, upper, StrLe);
    MergedMultiset(lower, upper, StrLe);
    assert CompareSplit(lower, upper, true) == m[..|lower|];
    assert CompareSplit(upper, lower, false) == m[|lower|..];
    SplitParts(m, |lower|, StrLe);
  }

  /** Cutting a sorted sequence in two gives two sorted parts, the first
      below the second, that together are the whole. */
  lemma SplitParts<T(!new)>(m: seq<T>, n: int, le: (T, T) -> bool)
    requires TotalOrder(le) && Sorted(m, le) && 0 <= n <= |m|
    ensures m[..n] + m[n..] == m && multiset(m[..n]) + multiset(m[n..]) == multiset(m)
    ensures Sorted(m[..n], le) && Sorted(m[n..], le)
    ensures forall x, y :: x in m[..n] && y in m[n..] ==> le(x, y)
  {
    assert m[..n] + m[n..] == m;
    SortedSuffix(m, n, le);
    forall x, y | x in m[..n] && y in m[n..] ensures le(x, y) {
      var p :| 0 <= p < n && m[p] == x;
      var q :| n <= q < |m| && m[q] == y;
      SortedLe(m, p, q, le);
    }
  }

  /** What a rank does in one round. */
  datatype Action = Idle | Exchange(partner: int, keepSmaller: bool)

  /** The partner schedule of round `i` (counted from 1): on odd rounds odd
      ranks pair upwards and even ranks downwards, on even rounds the other
      way round; a rank whose partner would fall outside `[0, P)` idles.  The
      rank that pairs upwards keeps the smaller strings.  A partner is a
      neighbour inside `[0, P)`, and the upper one of the two. */
  function Schedule(i: int, rank: int, P: int): (a: Action)
    requires i >= 1 && 0 <= rank < P
    ensures a.Exchange? ==> 0 <= a.partner < P && (a.partner == rank + 1 || a.partner == rank - 1)
    ensures a.Exchange? ==> (a.keepSmaller <==> a.partner == rank + 1)
  {
    if i % 2 == 1 then
      if rank % 2 == 1 then
        if rank < P - 1 then Exchange(rank + 1, true) else Idle
      else
        if rank > 0 then Exchange(rank - 1, false) else Idle
    else
      if rank % 2 == 0 then
        if rank < P - 1 then Exchange(rank + 1, true) else Idle
      else
        if rank > 0 then Exchange(rank - 1, false) else Idle
  }

  /** The schedule is a matching: partners name each other and keep
      opposite halves; the lower rank of every pair has the parity of the
      round, so the pairs are (1,2), (3,4), ... on odd rounds and (0,1),
      (2,3), ... on even ones; and a rank idles exactly when it is rank 0 on
      an odd round or the last rank with nobody above it. */
  lemma ScheduleIsMatching(i: int, rank: int, P: int)
    requires i >= 1 && 0 <= rank < P
    ensures Schedule(i, rank, P).Exchange? ==>
              var q := Schedule(i, rank, P).partner;
              Schedule(i, q, P) == Exchange(rank, !Schedule(i, rank, P).keepSmaller) &&
              (if rank < q then rank else q) % 2 == i % 2
    ensures Schedule(i, rank, P).Idle? <==> (rank == 0 && i % 2 == 1) || (rank == P - 1 && rank % 2 == i % 2)
  {
  }

  /** A rank's block after round `i`: its old block when it idles,
      otherwise its share of the compare-split with its partner's old
      block. */
  function Share(blocks: seq<seq<string>>, i: int, r: int): (mine: seq<string>)
    requires i >= 1 && 0 <= r < |blocks|
    ensures |mine| == |blocks[r]|
  {
    match Schedule(i, r, |blocks|)
    case Idle => blocks[r]
    case Exchange(q, keepSmaller) => CompareSplit(blocks[r], blocks[q], keepSmaller)
  }

  /** One round over all ranks at once. */
  function Step(blocks: seq<seq<string>>, i: int): (next: seq<seq<string>>)
    requires i >= 1
    ensures |next| == |blocks|
    ensures forall r :: 0 <= r < |blocks| ==> |next[r]| == |blocks[r]|
  {
    seq(|blocks|, r requires 0 <= r < |blocks| => Share(blocks, i, r))
  }

  /** Rank `r`'s block: `blocks[r]`, named so that the quantifiers over
      the ranks have a term to trigger on. */
  function Block(blocks: seq<seq<string>>, r: int): seq<string>
    requires 0 <= r < |blocks|
  {
    blocks[r]
  }

  /** Every rank's block is sorted. */
  ghost predicate BlocksSorted(blocks: seq<seq<string>>) {
    forall r :: 0 <= r < |blocks| ==> Sorted(Block(blocks, r), StrLe)
  }

  /** What a round must do for the strings to stay together: an idle
      rank keeps its strings, and the two ranks of a pair share out between
      them exactly the strings they held. */
  ghost predicate PairsKept<T>(b: seq<seq<T>>, c: seq<seq<T>>, i: int)
    requires i >= 1
  {
    |b| == |c| &&
    forall k :: 0 <= k < |b| ==>
      (Schedule(i, k, |b|).Idle? ==> multiset(c[k]) == multiset(b[k])) &&
      (Schedule(i, k, |b|) == Exchange(k + 1, true) ==>
         multiset(c[k]) + multiset(c[k + 1]) == multiset(b[k]) + multiset(b[k + 1]))
  }

  /** A round meets `PairsKept` on sorted blocks. */
  lemma StepKeepsPairs(b: seq<seq<string>>, i: int)
    requires i >= 1 && BlocksSorted(b)
    ensures PairsKept(b, Step(b, i), i)
  {
    var c := Step(b, i);
    forall k | 0 <= k < |b| && Schedule(i, k, |b|) == Exchange(k + 1, true)
      ensures multiset(c[k]) + multiset(c[k + 1]) == multiset(b[k]) + multiset(b[k + 1])
    {
      ScheduleIsMatching(i, k, |b|);
      assert Block(b, k) == b[k] && Block(b, k + 1) == b[k + 1];
      assert c[k] == CompareSplit(b[k], b[k + 1], true);
      assert c[k + 1] == CompareSplit(b[k + 1], b[k], false);
      PairSplit(b[k], b[k + 1]);
    }
  }

  /** Under `PairsKept`, the blocks before a rank that is not the upper one
      of a pair hold the same strings before and after the round. */
  lemma {:induction false} PairsKeptPrefix<T>(b: seq<seq<T>>, c: seq<seq<T>>, i: int, r: int)
    requires i >= 1 && PairsKept(b, c, i)
    requires 0 <= r <= |b| && (r == 0 || r == |b| || r % 2 == i % 2)
    ensures multiset(Flatten(c[..r])) == multiset(Flatten(b[..r]))
    decreases r
  {
    if r > 0 {
      if r - 1 > 0 && (r - 1) % 2 != i % 2 {
        LowerBeforeUpper(i, r, |b|);
        PairsKeptPrefix(b, c, i, r - 2);
        PrefixGrowsByPair(b, c, r);
      } else {
        IdleBeforeBoundary(i, r, |b|);
        PairsKeptPrefix(b, c, i, r - 1);
        FlattenLast(b, r - 1);
        FlattenLast(c, r - 1);
      }
    }
  }

  /** Just below a rank that starts a pair or idles, with an upper rank
      before it, sits the lower rank of that pair, of the round's parity. */
  lemma LowerBeforeUpper(i: int, r: int, P: int)
    requires i >= 1 && 2 <= r <= P && (r == P || r % 2 == i % 2) && (r - 1) % 2 != i % 2
    ensures Schedule(i, r - 2, P) == Exchange(r - 1, true) && (r - 2) % 2 == i % 2
  {
  }

  /** Just below a rank that starts a pair or idles, if not an upper rank,
      sits an idle rank. */
  lemma IdleBeforeBoundary(i: int, r: int, P: int)
    requires i >= 1 && 1 <= r <= P && (r == P || r % 2 == i % 2)
    requires r - 1 == 0 || (r - 1) % 2 == i % 2
    ensures Schedule(i, r - 1, P) == Idle
  {
  }

  /** Adding a pair of blocks that hold the same strings together keeps
      two prefixes with the same strings equal in strings. */
  lemma PrefixGrowsByPair<T>(b: seq<seq<T>>, c: seq<seq<T>>, r: int)
    requires 2 <= r <= |b| == |c|
    requires multiset(c[r - 2]) + multiset(c[r - 1]) == multiset(b[r - 2]) + multiset(b[r - 1])
    requires multiset(Flatten(c[..r - 2])) == multiset(Flatten(b[..r - 2]))
    ensures multiset(Flatten(c[..r])) == multiset(Flatten(b[..r]))
  {
    JoinTwo(b, r - 2);
    JoinTwo(c, r - 2);
  }

  /** The blocks up to `t + 2` are those up to `t` and then blocks `t` and `t + 1`. */
  lemma JoinTwo<T>(b: seq<seq<T>>, t: int)
    requires 0 <= t && t + 2 <= |b|
    ensures multiset(Flatten(b[..t + 2])) == multiset(Flatten(b[..t])) + (multiset(b[t]) + multiset(b[t + 1]))
  {
    FlattenLast(b, t + 1);
    FlattenLast(b, t);
  }

  /** A round keeps every block sorted. */
  lemma StepKeepsSorted(b: seq<seq<string>>, i: int)
    requires i >= 1
    requires BlocksSorted(b)
    ensures BlocksSorted(Step(b, i))
  {
    var c := Step(b, i);
    forall k | 0 <= k < |b| ensures Sorted(Block(c, k), StrLe) {
      assert Block(c, k) == Share(b, i, k);
      assert Block(b, k) == b[k];
      match Schedule(i, k, |b|)
      case Idle =>
      case Exchange(q, keepSmaller) =>
        assert Block(b, q) == b[q];
        CompareSplitSorted(b[k], b[q], keepSmaller);
    }
  }

  /** A round on sorted blocks moves strings between ranks without losing
      or duplicating any. */
  lemma StepKeepsStrings(b: seq<seq<string>>, i: int)
    requires i >= 1
    requires BlocksSorted(b)
    ensures multiset(Flatten(Step(b, i))) == multiset(Flatten(b))
  {
    var c := Step(b, i);
    StepKeepsPairs(b, i);
    PairsKeptPrefix(b, c, i, |b|);
    assert b[..|b|] == b && c[..|c|] == c;
  }

  /** The blocks after rounds 1 to `k`. */
  function Rounds(blocks: seq<seq<string>>, k: int): (after: seq<seq<string>>)
    requires k >= 0
    ensures |after| == |blocks|
    ensures forall r :: 0 <= r < |blocks| ==> |after[r]| == |blocks[r]|
    decreases k
  {
    if k == 0 then blocks else Step(Rounds(blocks, k - 1), k)
  }

  /** One rank's part of a round. */
  method RankRound(blocks: seq<seq<string>>, i: int, r: int) returns (mine: seq<string>)
    requires i >= 1 && 0 <= r < |blocks|
    ensures mine == Share(blocks, i, r)
  {
    match Schedule(i, r, |blocks|)
    case Idle =>
      mine := blocks[r];
    case Exchange(q, keepSmaller) =>
      var localData := FromSeq(blocks[r]);
      assert localData[..|blocks[r]|] == blocks[r];
      CompareSeparate(localData, |blocks[r]|, blocks[q], keepSmaller);
      mine := localData[..];
      assert mine == localData[..|blocks[r]|];
  }

  /** Round `i` on all ranks. */
  method Round(blocks: seq<seq<string>>, i: int) returns (next: seq<seq<string>>)
    requires i >= 1
    ensures next == Step(blocks, i)
  {
    next := [];
    for r := 0 to |blocks|
      invariant |next| == r && forall k :: 0 <= k < r ==> next[k] == Share(blocks, i, k)
    {
      var mine := RankRound(blocks, i, r);
      next := next + [mine];
    }
  }

  /** The local sort before the rounds (a library sort in the program): a
      sorted permutation of the block. */
  method LocalSort(block: seq<string>) returns (sorted: seq<string>)
    ensures Sorted(sorted, StrLe) && multiset(sorted) == multiset(block) && |sorted| == |block|
  {
    StrLeIsTotalOrder();
    var arr := FromSeq(block);
    var n := arr.Length;
    assert block == arr[0..n - 1 + 1];
    SplitSort.SplitSort(arr, 0, n - 1, StrLe);
    sorted := arr[..];
    assert sorted == arr[0..n - 1 + 1];
  }

  /** `odd_even_parallel_sort_blocks` over `P` ranks holding the blocks
      `locals`: after the local sorts (`sorted`), exactly `P` rounds run;
      every rank ends with a sorted block of its original size, and the
      ranks together hold the strings they started with. */
  method OddEvenSortBlocks(locals: seq<seq<string>>) returns (sorted: seq<seq<string>>, finals: seq<seq<string>>)
    ensures |sorted| == |locals| && forall r :: 0 <= r < |locals| ==>
              Sorted(sorted[r], StrLe) && multiset(sorted[r]) == multiset(locals[r])
    ensures finals == Rounds(sorted, |locals|)
    ensures |finals| == |locals| && forall r :: 0 <= r < |locals| ==>
              Sorted(finals[r], StrLe) && |finals[r]| == |locals[r]|
    ensures multiset(Flatten(finals)) == multiset(Flatten(locals))
  {
    var P := |locals|;
    sorted := [];
    for r := 0 to P
      invariant |sorted| == r
      invariant forall k :: 0 <= k < r ==>
                  Sorted(sorted[k], StrLe) && multiset(sorted[k]) == multiset(locals[k]) && |sorted[k]| == |locals[k]|
    {
      var s := LocalSort(locals[r]);
      sorted := sorted + [s];
    }
    forall r | 0 <= r < P ensures Sorted(Block(sorted, r), StrLe) {
      assert Block(sorted, r) == sorted[r];
    }
    finals := sorted;
    for i := 1 to P + 1
      invariant finals == Rounds(sorted, i - 1)
      invariant BlocksSorted(finals) && multiset(Flatten(finals)) == multiset(Flatten(sorted))
    {
      StepKeepsSorted(finals, i);
      StepKeepsStrings(finals, i);
      finals := Round(finals, i);
    }
    forall r | 0 <= r < P ensures Sorted(finals[r], StrLe) {
      assert Block(finals, r) == finals[r];
    }
    FlattenSameBlocks(sorted, locals);
  }
}
