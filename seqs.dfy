/** Sums of count arrays and the concatenation of per-rank or per-bucket
    blocks, the two shapes that the displacement arrays and the gathers of
    the programs are built on. */
module Seqs {
  import opened Order

  /** The sum of a count array. */
  function Sum(s: seq<int>): int
    decreases |s|
  {
    if s == [] then 0 else Sum(s[..|s| - 1]) + s[|s| - 1]
  }

  /** Extending a prefix by one cell adds that cell to the prefix sum. */
  lemma SumStep(s: seq<int>, i: int)
    requires 0 <= i < |s|
    ensures Sum(s[..i + 1]) == Sum(s[..i]) + s[i]
  {
    assert s[..i + 1][..i] == s[..i];
  }

  /** A count array of non-negative cells has non-negative, growing prefix sums. */
  lemma {:induction false} SumPrefixMono(s: seq<int>, i: int, j: int)
    requires 0 <= i <= j <= |s|
    requires forall k :: 0 <= k < |s| ==> s[k] >= 0
    ensures 0 <= Sum(s[..i]) <= Sum(s[..j])
    decreases j
  {
    if j == 0 {
      assert s[..0] == [];
    } else {
      SumPrefixMono(s, if i < j then i else 0, j - 1);
      SumStep(s, j - 1);
    }
  }

  /** The exclusive prefix sums of a count array: where each block starts
      when the blocks are laid end to end. */
  function PrefixSums(s: seq<int>): (r: seq<int>)
    ensures |r| == |s|
    decreases |s|
  {
    if s == [] then [] else PrefixSums(s[..|s| - 1]) + [Sum(s[..|s| - 1])]
  }

  /** Entry `k` of the prefix sums is the sum of the counts before `k`. */
  lemma {:induction false} PrefixSumsAt(s: seq<int>, k: int)
    requires 0 <= k < |s|
    ensures PrefixSums(s)[k] == Sum(s[..k])
    decreases |s|
  {
    if k < |s| - 1 {
      PrefixSumsAt(s[..|s| - 1], k);
      assert s[..|s| - 1][..k] == s[..k];
    }
  }

  /** The prefix sums start at 0 and each one adds the count before it. */
  lemma PrefixSumsStep(s: seq<int>, k: int)
    requires 0 <= k < |s|
    ensures PrefixSums(s)[k] == if k == 0 then 0 else PrefixSums(s)[k - 1] + s[k - 1]
  {
    PrefixSumsAt(s, k);
    if k == 0 {
      assert s[..0] == [];
    } else {
      PrefixSumsAt(s, k - 1);
      SumStep(s, k - 1);
    }
  }

  /** With non-negative counts the blocks laid out at the prefix sums lie
      inside `[0, Sum(s))`, one after the other without overlapping. */
  lemma PrefixSumsSegments(s: seq<int>, u: int, v: int)
    requires forall k :: 0 <= k < |s| ==> s[k] >= 0
    requires 0 <= u < |s| && u < v <= |s|
    ensures 0 <= PrefixSums(s)[u] && PrefixSums(s)[u] + s[u] <= (if v < |s| then PrefixSums(s)[v] else Sum(s))
  {
    PrefixSumsAt(s, u);
    SumStep(s, u);
    SumPrefixMono(s, u + 1, v);
    SumPrefixMono(s, 0, u);
    if v < |s| {
      PrefixSumsAt(s, v);
    } else {
      assert s[..v] == s;
    }
  }

  /** The last block ends at the sum of the counts. */
  lemma PrefixSumsLast(s: seq<int>)
    requires |s| >= 1
    ensures PrefixSums(s)[|s| - 1] + s[|s| - 1] == Sum(s)
  {
    PrefixSumsAt(s, |s| - 1);
    SumStep(s, |s| - 1);
    assert s[..|s|] == s;
  }

  /** The blocks laid end to end: what a gather or a bucket-by-bucket copy produces. */
  function Flatten<T>(b: seq<seq<T>>): seq<T>
    decreases |b|
  {
    if b == [] then [] else Flatten(b[..|b| - 1]) + b[|b| - 1]
  }

  /** The lengths of the blocks: the count array of a gather. */
  function Lens<T>(b: seq<seq<T>>): (r: seq<int>)
    ensures |r| == |b| && forall t :: 0 <= t < |b| ==> r[t] == |b[t]|
  {
    seq(|b|, t requires 0 <= t < |b| => |b[t]|)
  }

  /** The concatenation is as long as the sum of the block lengths. */
  lemma {:induction false} FlattenLength<T>(b: seq<seq<T>>)
    ensures |Flatten(b)| == Sum(Lens(b))
    decreases |b|
  {
    if b != [] {
      FlattenLength(b[..|b| - 1]);
      assert Lens(b)[..|b| - 1] == Lens(b[..|b| - 1]);
    }
  }

  /** Concatenation distributes over joining the block lists. */
  lemma {:induction false} FlattenAppend<T>(b: seq<seq<T>>, c: seq<seq<T>>)
    ensures Flatten(b + c) == Flatten(b) + Flatten(c)
    decreases |c|
  {
    if c == [] {
      assert b + c == b;
    } else {
      var n := |c| - 1;
      JoinDropLast(b, c);
      FlattenAppend(b, c[..n]);
    }
  }

  lemma JoinDropLast<T>(b: seq<T>, c: seq<T>)
    requires c != []
    ensures (b + c)[..|b + c| - 1] == b + c[..|c| - 1] && (b + c)[|b + c| - 1] == c[|c| - 1]
  {
  }

  /** Block `t` sits in the concatenation right after the blocks before it. */
  lemma FlattenSplit<T>(b: seq<seq<T>>, t: int)
    requires 0 <= t < |b|
    ensures Flatten(b) == Flatten(b[..t]) + b[t] + Flatten(b[t + 1..])
  {
    FlattenAppend(b[..t + 1], b[t + 1..]);
    JoinTakeDrop(b, t + 1);
    FlattenLast(b, t);
  }

  lemma JoinTakeDrop<T>(b: seq<T>, k: int)
    requires 0 <= k <= |b|
    ensures b[..k] + b[k..] == b
  {
  }

  /** The blocks up to and including `t` are the blocks before it and then block `t`. */
  lemma FlattenLast<T>(b: seq<seq<T>>, t: int)
    requires 0 <= t < |b|
    ensures Flatten(b[..t + 1]) == Flatten(b[..t]) + b[t]
  {
    assert b[..t + 1][..t] == b[..t];
  }

  /** Every position of the concatenation lies in exactly one block:
      position `p` is cell `k` of block `t`. */
  lemma {:induction false} FlattenAt<T>(b: seq<seq<T>>, p: int) returns (t: int, k: int)
    requires 0 <= p < |Flatten(b)|
    ensures 0 <= t < |b| && 0 <= k < |b[t]|
    ensures p == |Flatten(b[..t])| + k && Flatten(b)[p] == b[t][k]
    decreases |b|
  {
    var n := |b| - 1;
    var front := Flatten(b[..n]);
    if p < |front| {
      t, k := FlattenAt(b[..n], p);
      assert b[..n][..t] == b[..t];
    } else {
      t, k := n, p - |front|;
      assert b[..t] == b[..n];
    }
  }

  /** Concatenation loses and invents nothing. */
  lemma {:induction false} FlattenMultiset<T>(b: seq<seq<T>>, t: int)
    requires 0 <= t <= |b|
    ensures multiset(Flatten(b[..t])) + multiset(Flatten(b[t..])) == multiset(Flatten(b))
  {
    assert b == b[..t] + b[t..];
    FlattenAppend(b[..t], b[t..]);
  }

  /** Empty blocks concatenate to nothing. */
  lemma {:induction false} FlattenEmpty<T>(b: seq<seq<T>>)
    requires forall t :: 0 <= t < |b| ==> b[t] == []
    ensures Flatten(b) == []
    decreases |b|
  {
    if b != [] {
      FlattenEmpty(b[..|b| - 1]);
    }
  }

  /** Appending `x` to block `t` adds `x` to the concatenation's multiset. */
  lemma FlattenGrow<T>(b: seq<seq<T>>, t: int, x: T)
    requires 0 <= t < |b|
    ensures multiset(Flatten(b[t := b[t] + [x]])) == multiset(Flatten(b)) + multiset{x}
  {
    var c := b[t := b[t] + [x]];
    FlattenSplit(b, t);
    FlattenSplit(c, t);
    assert c[..t] == b[..t] && c[t + 1..] == b[t + 1..];
  }

  /** Blocks laid out at displacements `D` in a buffer: block `t` fills
      the cells from `D[t]` on. */
  ghost predicate Placed<T>(buf: seq<T>, b: seq<seq<T>>, D: seq<int>)
    requires |D| == |b|
  {
    forall t :: 0 <= t < |b| ==> 0 <= D[t] <= D[t] + |b[t]| <= |buf| && buf[D[t]..D[t] + |b[t]|] == b[t]
  }

  /** Segments `[D[t], D[t] + H[t])` inside `[0, n)`, in order and without overlap. */
  ghost predicate Disjoint(D: seq<int>, H: seq<int>, n: int) {
    |D| == |H| &&
    (forall u :: 0 <= u < |H| ==> 0 <= D[u] && D[u] + H[u] <= n) &&
    (forall u, v :: 0 <= u < v < |H| ==> D[u] + H[u] <= D[v])
  }

  /** The prefix sums of non-negative counts cut `[0, Sum(H))` into such segments. */
  lemma PrefixSumsDisjoint(H: seq<int>)
    requires forall k :: 0 <= k < |H| ==> H[k] >= 0
    ensures Disjoint(PrefixSums(H), H, Sum(H))
  {
    forall u | 0 <= u < |H| ensures 0 <= PrefixSums(H)[u] && PrefixSums(H)[u] + H[u] <= Sum(H) {
      PrefixSumsSegments(H, u, |H|);
    }
    forall u, v | 0 <= u < v < |H| ensures PrefixSums(H)[u] + H[u] <= PrefixSums(H)[v] {
      PrefixSumsSegments(H, u, v);
    }
  }

  /** Empty blocks are laid out at the starts of any segments inside the buffer. */
  lemma PlacedStart<T>(buf: seq<T>, b: seq<seq<T>>, D: seq<int>, H: seq<int>)
    requires |b| == |H| && Disjoint(D, H, |buf|)
    requires forall t :: 0 <= t < |b| ==> b[t] == [] && H[t] >= 0
    ensures Placed(buf, b, D)
  {
  }

  /** A write past the end of a slice extends it by the value written. */
  lemma SliceGrow<T>(prev: seq<T>, lo: int, pos: int, x: T)
    requires 0 <= lo <= pos < |prev|
    ensures prev[pos := x][lo..pos + 1] == prev[lo..pos] + [x]
  {
  }

  /** A write outside a slice leaves it as it was. */
  lemma SliceKeep<T>(prev: seq<T>, lo: int, hi: int, pos: int, x: T)
    requires 0 <= lo <= hi <= |prev| && 0 <= pos < |prev| && (pos < lo || hi <= pos)
    ensures prev[pos := x][lo..hi] == prev[lo..hi]
  {
  }

  /** The cell after block `t` lies inside the buffer while block `t` is
      shorter than its segment. */
  lemma NextSlotInRange<T>(b: seq<seq<T>>, D: seq<int>, H: seq<int>, t: int, n: int)
    requires |b| == |H| && 0 <= t < |b| && Disjoint(D, H, n)
    requires |b[t]| < H[t]
    ensures 0 <= D[t] + |b[t]| < n
  {
  }

  /** Writing `x` to the cell after block `t`, while every block is shorter
      than its segment and block `t` strictly so, extends block `t` by `x`
      and keeps the other blocks. */
  lemma PlaceNext<T>(prev: seq<T>, next: seq<T>, b: seq<seq<T>>, D: seq<int>, H: seq<int>, t: int, x: T)
    requires |b| == |H| && 0 <= t < |b| && Disjoint(D, H, |prev|)
    requires forall u :: 0 <= u < |b| ==> |b[u]| <= H[u]
    requires |b[t]| < H[t]
    requires Placed(prev, b, D)
    requires 0 <= D[t] + |b[t]| < |prev| && next == prev[D[t] + |b[t]| := x]
    ensures Placed(next, b[t := b[t] + [x]], D)
  {
    var pos := D[t] + |b[t]|;
    var c := b[t := b[t] + [x]];
    forall u | 0 <= u < |c|
      ensures 0 <= D[u] <= D[u] + |c[u]| <= |next| && next[D[u]..D[u] + |c[u]|] == c[u]
    {
      if u == t {
        SliceGrow(prev, D[t], pos, x);
      } else {
        SliceKeep(prev, D[u], D[u] + |b[u]|, pos, x);
      }
    }
  }

  /** Segments `[D[t], D[t] + H[t])` that tile `[0, n)`: the first starts
      at 0 and each one ends where the next starts. */
  ghost predicate Tiles(D: seq<int>, H: seq<int>, n: int) {
    |D| == |H| &&
    (|H| == 0 ==> n == 0) &&
    (|H| > 0 ==> D[0] == 0) &&
    forall u :: 0 <= u < |H| ==> D[u] + H[u] == if u + 1 < |H| then D[u + 1] else n
  }

  /** The prefix sums of the counts tile `[0, Sum(H))`. */
  lemma PrefixSumsTile(H: seq<int>)
    ensures Tiles(PrefixSums(H), H, Sum(H))
  {
    if |H| > 0 {
      PrefixSumsStep(H, 0);
      forall u | 0 <= u < |H| ensures PrefixSums(H)[u] + H[u] == if u + 1 < |H| then PrefixSums(H)[u + 1] else Sum(H) {
        if u + 1 < |H| {
          PrefixSumsStep(H, u + 1);
        } else {
          PrefixSumsLast(H);
        }
      }
    }
  }

  /** Blocks laid out on tiling segments, the first `t` of them. */
  lemma {:induction false} PlacedPrefix<T>(buf: seq<T>, b: seq<seq<T>>, D: seq<int>, H: seq<int>, t: int)
    requires |b| == |H| && 0 <= t <= |b| && Tiles(D, H, |buf|)
    requires forall u :: 0 <= u < |b| ==> |b[u]| == H[u]
    requires Placed(buf, b, D)
    ensures var end := if t < |b| then D[t] else |buf|;
            0 <= end <= |buf| && buf[..end] == Flatten(b[..t])
  {
    if t == 0 {
      assert b[..0] == [];
    } else {
      PlacedPrefix(buf, b, D, H, t - 1);
      FlattenLast(b, t - 1);
      var end := if t < |b| then D[t] else |buf|;
      assert buf[..end] == buf[..D[t - 1]] + buf[D[t - 1]..end];
    }
  }

  /** Blocks laid out on tiling segments fill the buffer with the blocks
      laid end to end. */
  lemma PlacedIsFlatten<T>(buf: seq<T>, b: seq<seq<T>>, D: seq<int>, H: seq<int>)
    requires |b| == |H| && Tiles(D, H, |buf|)
    requires forall u :: 0 <= u < |b| ==> |b[u]| == H[u]
    requires Placed(buf, b, D)
    ensures buf == Flatten(b)
  {
    PlacedPrefix(buf, b, D, H, |b|);
    assert b[..|b|] == b;
  }

  /** Sorted blocks that are ordered one after the other (everything in an
      earlier block is `le` everything in a later one) concatenate to a
      sorted sequence. */
  lemma {:induction false} SortedFlatten<T>(b: seq<seq<T>>, le: (T, T) -> bool)
    requires forall t :: 0 <= t < |b| ==> Sorted(b[t], le)
    requires forall t, u, x, y :: 0 <= t < u < |b| && x in b[t] && y in b[u] ==> le(x, y)
    ensures Sorted(Flatten(b), le)
    decreases |b|
  {
    if b != [] {
      var n := |b| - 1;
      SortedFlatten(b[..n], le);
      forall x, y | x in Flatten(b[..n]) && y in b[n] ensures le(x, y) {
        var p :| 0 <= p < |Flatten(b[..n])| && Flatten(b[..n])[p] == x;
        var t, k := FlattenAt(b[..n], p);
        assert x in b[t];
      }
      SortedAppend(Flatten(b[..n]), b[n], le);
    }
  }

  /** Blocks that hold the same items block by block hold the same items
      in all. */
  lemma {:induction false} FlattenSameBlocks<T>(b: seq<seq<T>>, c: seq<seq<T>>)
    requires |b| == |c| && forall r :: 0 <= r < |b| ==> multiset(b[r]) == multiset(c[r])
    ensures multiset(Flatten(b)) == multiset(Flatten(c))
    decreases |b|
  {
    if b != [] {
      FlattenSameBlocks(b[..|b| - 1], c[..|c| - 1]);
    }
  }

  /** A block as an array of its own, as each rank holds its data. */
  method FromSeq<T>(s: seq<T>) returns (a: array<T>)
    ensures fresh(a) && a[..] == s
  {
    a := new T[|s|](i requires 0 <= i < |s| => s[i]);
  }
}
