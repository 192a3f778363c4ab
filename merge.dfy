/** The merge step of the split sort: the adjacent runs `a[left..mid]` and
    `a[mid+1..right]` are copied to two temporary buffers and merged back,
    taking from the left buffer on ties. */
module TwoWayMerge {
  import opened Order

  /** The array while merge writes back: `base` with the first `w` elements
      of the merge `M` written one by one to the cells from `left` on. */
  ghost function Written<T>(base: seq<T>, left: int, M: seq<T>, w: int): (r: seq<T>)
    requires 0 <= left && 0 <= w <= |M| && left + w <= |base|
    ensures |r| == |base|
    decreases w
  {
    if w == 0 then base else Written(base, left, M, w - 1)[left + w - 1 := M[w - 1]]
  }

  /** Cell by cell: the written cells hold the merge, the others `base`. */
  lemma {:induction false} WrittenAt<T>(base: seq<T>, left: int, M: seq<T>, w: int, p: int)
    requires 0 <= left && 0 <= w <= |M| && left + w <= |base| && 0 <= p < |base|
    ensures Written(base, left, M, w)[p] == if left <= p < left + w then M[p - left] else base[p]
    decreases w
  {
    if w > 0 {
      WrittenAt(base, left, M, w - 1, p);
    }
  }

  /** The parts of the array while merge writes back. */
  lemma WrittenParts<T>(base: seq<T>, left: int, M: seq<T>, w: int)
    requires 0 <= left && 0 <= w <= |M| && left + w <= |base|
    ensures Written(base, left, M, w)[left..left + w] == M[..w]
    ensures Written(base, left, M, w)[..left] == base[..left]
    ensures Written(base, left, M, w)[left + w..] == base[left + w..]
  {
    var s := Written(base, left, M, w);
    assert s[left..left + w] == M[..w] by {
      forall p | 0 <= p < w ensures s[left..left + w][p] == M[..w][p] {
        WrittenAt(base, left, M, w, left + p);
      }
    }
    assert s[..left] == base[..left] by {
      forall p | 0 <= p < left ensures s[..left][p] == base[..left][p] {
        WrittenAt(base, left, M, w, p);
      }
    }
    var k := left + w;
    assert s[k..] == base[k..] by {
      forall p | 0 <= p < |base| - k ensures s[k..][p] == base[k..][p] {
        WrittenAt(base, left, M, w, k + p);
      }
    }
  }

  /** One pass of the main merge loop: write the smaller of the next two
      buffer elements (the left one on ties) to `a[left + i + j]` and advance
      past it.  That element is the next one of the merge `M`, so the written
      prefix of the range grows by one element of `M`. */
  method MergeStep<T>(a: array<T>, left: int, L: seq<T>, R: seq<T>, i: int, j: int, le: (T, T) -> bool,
                      ghost M: seq<T>, ghost base: seq<T>)
    returns (i': int, j': int)
    requires 0 <= i < |L| && 0 <= j < |R| && 0 <= left && left + |L| + |R| <= a.Length == |base|
    requires |M| == |L| + |R| && MergeFrom(L, R, i, j, le) == M[i + j..]
    requires a[..] == Written(base, left, M, i + j)
    modifies a
    ensures i' + j' == i + j + 1 && i <= i' <= |L| && j <= j' <= |R|
    ensures MergeFrom(L, R, i', j', le) == M[i' + j'..]
    ensures a[..] == Written(base, left, M, i' + j')
  {
    var k := left + i + j;
    assert M[i + j..][1..] == M[i + j + 1..];
    if le(L[i], R[j]) {
      a[k] := L[i];
      i', j' := i + 1, j;
    } else {
      a[k] := R[j];
      j', i' := j + 1, i;
    }
    assert a[..] == old(a[..])[k := M[i + j]];
  }

  /** The main merge loop: while both buffers have elements, write the smaller
      head (the left one on ties) to `a[k]`, where `k` is `left + i + j`.  On
      exit one buffer is used up, the cells written so far hold the first
      `i + j` elements of the merge of the buffers, and what is left to write
      is the rest of the buffer not used up.  The buffers are never written
      after they are filled, so they are values here. */
  method MergeRuns<T>(a: array<T>, left: int, L: seq<T>, R: seq<T>, le: (T, T) -> bool)
    returns (i: int, j: int)
    requires 0 <= left && left + |L| + |R| <= a.Length
    modifies a
    ensures 0 <= i <= |L| && 0 <= j <= |R|
    ensures i == |L| || j == |R|
    ensures a[..] == Written(old(a[..]), left, Merged(L, R, le), i + j)
    ensures Merged(L, R, le)[i + j..] == L[i..] + R[j..]
  {
    ghost var s0 := a[..];
    ghost var M := Merged(L, R, le);
    i, j := 0, 0;
    assert s0 == Written(s0, left, M, 0);
    while i < |L| && j < |R|
      invariant 0 <= i <= |L| && 0 <= j <= |R|
      invariant MergeFrom(L, R, i, j, le) == M[i + j..]
      invariant a[..] == Written(s0, left, M, i + j)
    {
      i, j := MergeStep(a, left, L, R, i, j, le, M, s0);
    }
    MergeFromTail(L, R, i, j, le);
  }

  /** Once one side is used up, the rest of the merge is what is left of the
      other side (written as both leftovers, one of which is empty). */
  lemma MergeFromTail<T>(L: seq<T>, R: seq<T>, i: nat, j: nat, le: (T, T) -> bool)
    requires i <= |L| && j <= |R| && (i == |L| || j == |R|)
    ensures MergeFrom(L, R, i, j, le) == L[i..] + R[j..]
  {
    if i == |L| {
      assert L[i..] == [];
    } else {
      assert R[j..] == [];
    }
  }

  /** One of the two tail loops of merge: copy what is left of a buffer,
      `src[from..]`, to the cells from `left + w` on.  When the rest of the
      merge `M` from `w` on is `src[from..]` followed by `rest`, this continues
      writing `M`, and what is then left of `M` is `rest`. */
  method CopyRest<T>(src: seq<T>, from: int, a: array<T>, left: int, ghost M: seq<T>, w: int, ghost base: seq<T>,
                     ghost rest: seq<T>)
    requires 0 <= from <= |src| && 0 <= left && 0 <= w <= |M| && left + |M| <= a.Length == |base|
    requires M[w..] == src[from..] + rest
    requires a[..] == Written(base, left, M, w)
    modifies a
    ensures w + (|src| - from) <= |M| && M[w + (|src| - from)..] == rest
    ensures a[..] == Written(base, left, M, w + (|src| - from))
  {
    var p, k := from, left + w;
    while p < |src|
      invariant from <= p <= |src| && k == left + w + (p - from) && k - left <= |M|
      invariant M[k - left..] == src[p..] + rest
      invariant a[..] == Written(base, left, M, k - left)
    {
      CopyStep(src, p, a, left, k, M, base, rest);
      p := p + 1;
      k := k + 1;
    }
  }

  /** One pass of a tail loop: `a[k] = src[p]`, the next element of `M`. */
  method CopyStep<T>(src: seq<T>, p: int, a: array<T>, left: int, k: int, ghost M: seq<T>, ghost base: seq<T>,
                     ghost rest: seq<T>)
    requires 0 <= p < |src| && 0 <= left <= k && k - left <= |M| && left + |M| <= a.Length == |base|
    requires M[k - left..] == src[p..] + rest
    requires a[..] == Written(base, left, M, k - left)
    modifies a
    ensures k + 1 - left <= |M| && M[k + 1 - left..] == src[p + 1..] + rest
    ensures a[..] == Written(base, left, M, k + 1 - left)
  {
    NextOfRest(M, k - left, src, p, rest);
    a[k] := src[p];
    assert a[..] == old(a[..])[k := M[k - left]];
  }

  /** The next element of the merge is the next one of the buffer being copied. */
  lemma NextOfRest<T>(M: seq<T>, q: int, src: seq<T>, p: int, rest: seq<T>)
    requires 0 <= q <= |M| && 0 <= p < |src|
    requires M[q..] == src[p..] + rest
    ensures q < |M| && M[q] == src[p] && M[q + 1..] == src[p + 1..] + rest
  {
    assert M[q..][0] == src[p];
    assert M[q + 1..] == M[q..][1..];
    assert (src[p..] + rest)[1..] == src[p + 1..] + rest;
  }

  /** The three loops of merge writing the merge `M` of the buffers `L` and
      `R` to the cells from `left` on: the main loop, then what is left of
      `L`, then what is left of `R`. */
  method WriteMerge<T>(a: array<T>, left: int, L: seq<T>, R: seq<T>, le: (T, T) -> bool, ghost M: seq<T>)
    requires 0 <= left && left + |L| + |R| <= a.Length
    requires M == Merged(L, R, le)
    modifies a
    ensures a[..] == Written(old(a[..]), left, M, |M|)
  {
    ghost var s0 := a[..];
    var i, j := MergeRuns(a, left, L, R, le);
    CopyRest(L, i, a, left, M, i + j, s0, R[j..]);
    CopyRest(R, j, a, left, M, i + j + (|L| - i), s0, []);
  }

  /** Merge of the adjacent ranges `a[left..mid]` and `a[mid+1..right]` through
      two temporary copies. */
  method Merge<T(!new)>(a: array<T>, left: int, mid: int, right: int, le: (T, T) -> bool)
    requires TotalOrder(le)
    requires 0 <= left <= mid <= right < a.Length
    modifies a
    ensures a[left..right + 1] == Merged(old(a[left..mid + 1]), old(a[mid + 1..right + 1]), le)
    ensures multiset(a[left..right + 1]) == old(multiset(a[left..right + 1]))
    ensures (Sorted(old(a[left..mid + 1]), le) && Sorted(old(a[mid + 1..right + 1]), le))
              ==> Sorted(a[left..right + 1], le)
    ensures a[..left] == old(a[..left]) && a[right + 1..] == old(a[right + 1..])
  {
    ghost var s0 := a[..];
    var leftArr := a[left..mid + 1];
    var rightArr := a[mid + 1..right + 1];
    ghost var M := Merged(leftArr, rightArr, le);
    WriteMerge(a, left, leftArr, rightArr, le, M);
    WrittenWhole(s0, a[..], left, M);
    MergeOutcome(s0, a[..], left, mid, right, le, M);
  }

  /** Once all of `M` is written, the cells from `left` on hold `M` and the
      others are as in `base`. */
  lemma WrittenWhole<T>(base: seq<T>, s: seq<T>, left: int, M: seq<T>)
    requires 0 <= left && left + |M| <= |base|
    requires s == Written(base, left, M, |M|)
    ensures s[left..left + |M|] == M
    ensures s[..left] == base[..left] && s[left + |M|..] == base[left + |M|..]
  {
    WrittenParts(base, left, M, |M|);
    assert M[..|M|] == M;
  }

  /** What writing the merge of the two runs of `s0` back over them
      amounts to: the range holds the merge, a permutation of the range that
      is sorted when both runs were sorted, and nothing else changed. */
  lemma MergeOutcome<T(!new)>(s0: seq<T>, s2: seq<T>, left: int, mid: int, right: int, le: (T, T) -> bool,
                              M: seq<T>)
    requires TotalOrder(le)
    requires 0 <= left <= mid <= right < |s0| == |s2|
    requires M == Merged(s0[left..mid + 1], s0[mid + 1..right + 1], le)
    requires s2[left..right + 1] == M
    requires s2[..left] == s0[..left] && s2[right + 1..] == s0[right + 1..]
    ensures s2[left..right + 1] == Merged(s0[left..mid + 1], s0[mid + 1..right + 1], le)
    ensures multiset(s2[left..right + 1]) == multiset(s0[left..right + 1])
    ensures (Sorted(s0[left..mid + 1], le) && Sorted(s0[mid + 1..right + 1], le)) ==> Sorted(s2[left..right + 1], le)
  {
    assert s0[left..right + 1] == s0[left..mid + 1] + s0[mid + 1..right + 1];
    MergedMultiset(s0[left..mid + 1], s0[mid + 1..right + 1], le);
    if Sorted(s0[left..mid + 1], le) && Sorted(s0[mid + 1..right + 1], le) {
      MergedSorted(s0[left..mid + 1], s0[mid + 1..right + 1], le);
    }
  }
}
