/** Regular sampling, as both parallel sample sorts do it: every rank picks
    `P - 1` evenly spaced elements of its sorted block, the root gathers
    the `P * (P - 1)` picks, sorts them and picks `P - 1` of those again with
    the same rule.  Generic in the element type: the numbers program
    samples `int`s, the DNA program strings. */
module Splitters {
  import opened Order
  import opened Seqs
  import opened SplitSort

  /** Where splitter `i` is read from among `n` sorted items on `P` ranks:
      `(i + 1) * n / P`, moved to the last item if it falls past the end. */
  function SampleIndex(n: int, P: int, i: int): int
    requires n >= 1 && P >= 1
  {
    var index := (i + 1) * n / P;
    if index >= n then n - 1 else index
  }

  /** For the `P - 1` splitters the position always lies inside the block,
      so the clamp to the last item never takes effect. */
  lemma SampleIndexInRange(n: int, P: int, i: int)
    requires n >= 1 && P >= 1 && 0 <= i < P - 1
    ensures 0 <= (i + 1) * n / P < n
    ensures SampleIndex(n, P, i) == (i + 1) * n / P
  {
    MulMono(i + 1, P - 1, n);
    assert (P - 1) * n == P * n - n;
    DivBelow((i + 1) * n, P, n);
  }

  /** Later splitters are read from later (or the same) positions. */
  lemma SampleIndexMono(n: int, P: int, i: int, j: int)
    requires n >= 1 && P >= 1 && 0 <= i <= j < P - 1
    ensures SampleIndex(n, P, i) <= SampleIndex(n, P, j)
  {
    SampleIndexInRange(n, P, i);
    SampleIndexInRange(n, P, j);
    MulMono(i + 1, j + 1, n);
    DivMono((i + 1) * n, (j + 1) * n, P);
  }

  /** On the root the block holds `P * (P - 1)` picks, so the position of
      global splitter `i` is exactly `(i + 1) * (P - 1)`: the division has
      no remainder and the clamp never takes effect. */
  lemma GlobalIndexExact(P: int, i: int)
    requires P >= 1 && 0 <= i < P - 1
    ensures (i + 1) * (P * (P - 1)) / P == (i + 1) * (P - 1) < P * (P - 1)
    ensures SampleIndex(P * (P - 1), P, i) == (i + 1) * (P - 1)
  {
    var m := (i + 1) * (P - 1);
    assert (i + 1) * (P * (P - 1)) == m * P;
    DivOfMultiple(m, P);
    MulMono(i + 1, P - 1, P - 1);
    MulSucc(P - 1, P - 1);
  }

  /** Dividing a multiple of `P` by `P` leaves no remainder. */
  lemma DivOfMultiple(m: int, P: int)
    requires P >= 1
    ensures m * P / P == m
  {
    var q, r := m * P / P, m * P % P;
    assert (m - q) * P == m * P - q * P;
    ZeroMultiple(m - q, P);
  }

  lemma MulMono(x: int, y: int, n: int)
    requires 0 <= x <= y && n >= 0
    ensures 0 <= x * n <= y * n
  {
  }

  /** A numerator below `P * n` gives a quotient below `n`. */
  lemma DivBelow(x: int, P: int, n: int)
    requires 0 <= x < P * n && P >= 1
    ensures 0 <= x / P < n
  {
    var q := x / P;
    MulMonoImp(n, q, P);
    assert P * q <= x;
  }

  lemma MulMonoImp(x: int, y: int, n: int)
    requires n >= 0
    ensures 0 <= x <= y ==> x * n <= y * n
  {
  }

  lemma DivMono(x: int, y: int, P: int)
    requires 0 <= x <= y && P >= 1
    ensures x / P <= y / P
  {
    var q, r := x / P, y / P;
    MulMonoImp(r + 1, q, P);
    assert (r + 1) * P == r * P + P;
    assert q * P <= x && y < r * P + P;
  }

  /** The splitters regular sampling picks from a block `s` for `P` ranks. */
  function Samples<T>(s: seq<T>, P: int): (r: seq<T>)
    requires P >= 1 && (P > 1 ==> |s| >= 1)
    ensures |r| == P - 1
  {
    seq(P - 1, i requires 0 <= i < P - 1 => s[SampleIndex(|s|, P, i)])
  }

  /** Samples of a sorted block are sorted. */
  lemma SamplesSorted<T(!new)>(s: seq<T>, P: int, le: (T, T) -> bool)
    requires TotalOrder(le)
    requires P >= 1 && (P > 1 ==> |s| >= 1)
    requires Sorted(s, le)
    ensures Sorted(Samples(s, P), le)
  {
    var r := Samples(s, P);
    forall i, j | 0 <= i < j < |r| ensures le(r[i], r[j]) {
      SampleIndexMono(|s|, P, i, j);
      SampleIndexInRange(|s|, P, i);
      SampleIndexInRange(|s|, P, j);
      SortedLe(s, SampleIndex(|s|, P, i), SampleIndex(|s|, P, j), le);
    }
  }

  /** Splitter `i` is read at `(i + 1) * n / P` itself. */
  lemma SamplesAt<T>(s: seq<T>, P: int, i: int)
    requires P >= 1 && (P > 1 ==> |s| >= 1) && 0 <= i < P - 1
    ensures 0 <= (i + 1) * |s| / P < |s| && Samples(s, P)[i] == s[(i + 1) * |s| / P]
  {
    SampleIndexInRange(|s|, P, i);
  }

  /** The sampling loop: splitter `i` is the item at `(i + 1) * n / P` of
      the first `n` cells of `a` (clamped to the last one). */
  method SelectSplitters<T(0)>(a: array<T>, n: int, P: int) returns (sp: array<T>)
    requires P >= 1 && 0 <= n <= a.Length && (P > 1 ==> n >= 1)
    ensures sp.Length == P - 1 && sp[..] == Samples(a[..n], P)
  {
    sp := new T[P - 1];
    ghost var s := a[..n];
    ghost var S := Samples(s, P);
    var i := 0;
    while i < P - 1
      invariant 0 <= i <= P - 1
      invariant forall k :: 0 <= k < i ==> sp[k] == S[k]
    {
      var index := (i + 1) * n / P;
      if index >= n {
        index := n - 1;
      }
      SampleAt(s, P, i, index);
      sp[i] := a[index];
      i := i + 1;
    }
  }

  /** The cell the loop reads for splitter `i` is the one `Samples` names. */
  lemma SampleAt<T>(s: seq<T>, P: int, i: int, index: int)
    requires P >= 1 && |s| >= 1 && 0 <= i < P - 1
    requires index == if (i + 1) * |s| / P >= |s| then |s| - 1 else (i + 1) * |s| / P
    ensures 0 <= index < |s| && Samples(s, P)[i] == s[index]
  {
    SampleIndexInRange(|s|, P, i);
  }

  /** The root's step: sort the gathered picks with the split sort, then
      sample them again with the same rule.  The global splitters come out
      sorted. */
  method ChooseGlobalSplitters<T(0,!new)>(all: array<T>, P: int, le: (T, T) -> bool) returns (sp: array<T>)
    requires TotalOrder(le)
    requires P >= 1 && all.Length == P * (P - 1)
    modifies all
    ensures Sorted(all[..], le) && multiset(all[..]) == old(multiset(all[..]))
    ensures sp.Length == P - 1 && sp[..] == Samples(all[..], P) && Sorted(sp[..], le)
  {
    var m := all.Length;
    PicksNonEmpty(P, m);
    ghost var s0 := all[..];
    assert s0 == all[0..m - 1 + 1];
    SplitSort.SplitSort(all, 0, m - 1, le);
    ghost var s1 := all[..];
    assert s1 == all[0..m - 1 + 1] == all[..m];
    sp := SelectSplitters(all, m, P);
    SamplesSorted(s1, P, le);
  }

  /** With two or more ranks there are picks to sort. */
  lemma PicksNonEmpty(P: int, m: int)
    requires P >= 1 && m == P * (P - 1)
    ensures m >= 0 && (P > 1 ==> m >= 1)
  {
    MulMono(1, P, P - 1);
  }

  /** The DNA root's receive loops: pick `i` of rank `j` goes to slot
      `j * ns + i` (rank 0's own picks included).  The result is the picks
      of all ranks laid end to end in rank order. */
  method GatherSplitters<T(0)>(locals: seq<seq<T>>, P: int, ns: int) returns (all: array<T>)
    requires P >= 1 && ns == P - 1 && |locals| == P
    requires forall j :: 0 <= j < P ==> |locals[j]| == ns
    ensures all.Length == P * ns && all[..] == Flatten(locals)
  {
    all := new T[P * ns];
    var i := 0;
    while i < ns
      invariant 0 <= i <= ns
      invariant Gathered(all[..], locals, P, ns, i, 0)
    {
      GatherRow(all, locals, P, ns, i);
      i := i + 1;
    }
    GatheredIsFlatten(all[..], locals, P, ns);
  }

  /** One pass of the outer receive loop: pick `i` of every rank, in rank order. */
  method GatherRow<T>(all: array<T>, locals: seq<seq<T>>, P: int, ns: int, i: int)
    requires P >= 1 && 0 <= i < ns && |locals| == P && all.Length == P * ns
    requires forall j :: 0 <= j < P ==> |locals[j]| == ns
    requires Gathered(all[..], locals, P, ns, i, 0)
    modifies all
    ensures Gathered(all[..], locals, P, ns, i + 1, 0)
  {
    var j := 0;
    while j < P
      invariant 0 <= j <= P
      invariant Gathered(all[..], locals, P, ns, i, j)
    {
      ghost var prev := all[..];
      SlotInRange(P, ns, j, i);
      all[j * ns + i] := locals[j][i];
      assert all[..] == prev[Slot(ns, j, i) := locals[j][i]];
      GatherFrame(prev, all[..], locals, P, ns, i, j);
      j := j + 1;
    }
    GatheredRow(all[..], locals, P, ns, i);
  }

  /** The slot of pick `i` of rank `j`. */
  function Slot(ns: int, j: int, i: int): int {
    j * ns + i
  }

  /** The picks received so far sit in their slots: all picks below `i`,
      and pick `i` of the ranks below `j`. */
  ghost predicate Gathered<T>(s: seq<T>, locals: seq<seq<T>>, P: int, ns: int, i: int, j: int)
    requires |locals| == P && forall r :: 0 <= r < P ==> |locals[r]| == ns
  {
    forall j', i' :: 0 <= j' < P && 0 <= i' < ns && (i' < i || (i' == i && j' < j)) ==>
      0 <= Slot(ns, j', i') < |s| && s[Slot(ns, j', i')] == locals[j'][i']
  }

  /** Writing pick `i` of rank `j` to its slot keeps the picks already there. */
  lemma GatherFrame<T>(prev: seq<T>, next: seq<T>, locals: seq<seq<T>>, P: int, ns: int, i: int, j: int)
    requires |locals| == P && forall r :: 0 <= r < P ==> |locals[r]| == ns
    requires 0 <= i < ns && 0 <= j < P && 0 <= Slot(ns, j, i) < |prev|
    requires Gathered(prev, locals, P, ns, i, j)
    requires next == prev[Slot(ns, j, i) := locals[j][i]]
    ensures Gathered(next, locals, P, ns, i, j + 1)
  {
    forall j', i' | 0 <= j' < P && 0 <= i' < ns && (i' < i || (i' == i && j' < j + 1))
      ensures 0 <= Slot(ns, j', i') < |next| && next[Slot(ns, j', i')] == locals[j'][i']
    {
      SlotInjective(ns, j', i', j, i);
    }
  }

  /** A finished row of picks: all picks up to and including `i` are in place. */
  lemma GatheredRow<T>(s: seq<T>, locals: seq<seq<T>>, P: int, ns: int, i: int)
    requires |locals| == P && forall r :: 0 <= r < P ==> |locals[r]| == ns
    requires Gathered(s, locals, P, ns, i, P)
    ensures Gathered(s, locals, P, ns, i + 1, 0)
  {
  }

  lemma SlotInRange(P: int, ns: int, j: int, i: int)
    requires 0 <= j < P && 0 <= i < ns
    ensures 0 <= Slot(ns, j, i) < P * ns
  {
    MulMono(j, P - 1, ns);
    assert (P - 1) * ns + ns == P * ns;
  }

  /** A multiple of `ns` strictly between `-ns` and `ns` is zero. */
  lemma ZeroMultiple(d: int, ns: int)
    requires ns >= 1 && -ns < d * ns < ns
    ensures d == 0
  {
    MulMonoImp(1, d, ns);
    MulMonoImp(1, -d, ns);
    assert (-d) * ns == -(d * ns);
  }

  /** Slot `j * ns + i` is pick `i` of rank `j` read back by division. */
  lemma SlotDivMod(ns: int, j: int, i: int)
    requires 0 <= i < ns
    ensures Slot(ns, j, i) / ns == j && Slot(ns, j, i) % ns == i
  {
    var k := Slot(ns, j, i);
    var q, r := k / ns, k % ns;
    assert (j - q) * ns == r - i;
    ZeroMultiple(j - q, ns);
  }

  /** Different picks go to different slots. */
  lemma SlotInjective(ns: int, j: int, i: int, j': int, i': int)
    requires 0 <= i < ns && 0 <= i' < ns
    ensures Slot(ns, j, i) == Slot(ns, j', i') ==> j == j' && i == i'
  {
    SlotDivMod(ns, j, i);
    SlotDivMod(ns, j', i');
  }

  /** Every slot receives a pick: slot `k` is pick `k % ns` of rank `k / ns`. */
  lemma SlotOnto(P: int, ns: int, k: int)
    requires ns >= 1 && 0 <= k < P * ns
    ensures 0 <= k / ns < P && 0 <= k % ns < ns && Slot(ns, k / ns, k % ns) == k
  {
    DivBelow(k, ns, P);
    assert k / ns * ns + k % ns == k;
  }

  /** Blocks of equal length `ns` laid end to end: cell `i` of block `j`
      sits at `j * ns + i`. */
  lemma {:induction false} FlattenUniform<T>(b: seq<seq<T>>, ns: int)
    requires ns >= 0 && forall j :: 0 <= j < |b| ==> |b[j]| == ns
    ensures |Flatten(b)| == |b| * ns
    ensures forall j, i :: 0 <= j < |b| && 0 <= i < ns ==>
      0 <= Slot(ns, j, i) < |Flatten(b)| && Flatten(b)[Slot(ns, j, i)] == b[j][i]
    decreases |b|
  {
    if b != [] {
      var n := |b| - 1;
      FlattenUniform(b[..n], ns);
      var F := Flatten(b[..n]);
      assert Flatten(b) == F + b[n];
      MulSucc(n, ns);
      forall j, i | 0 <= j < |b| && 0 <= i < ns
        ensures 0 <= Slot(ns, j, i) < |Flatten(b)| && Flatten(b)[Slot(ns, j, i)] == b[j][i]
      {
        if j < n {
          SlotInRange(n, ns, j, i);
          assert b[..n][j] == b[j];
          assert F[Slot(ns, j, i)] == b[j][i];
        } else {
          assert Slot(ns, j, i) == |F| + i;
        }
      }
    }
  }

  lemma MulSucc(n: int, ns: int)
    ensures (n + 1) * ns == n * ns + ns
  {
  }

  /** Once every pick is in its slot, the array is the picks of all ranks
      laid end to end. */
  lemma GatheredIsFlatten<T>(all: seq<T>, locals: seq<seq<T>>, P: int, ns: int)
    requires P >= 1 && ns >= 0 && |locals| == P && |all| == P * ns
    requires forall j :: 0 <= j < P ==> |locals[j]| == ns
    requires Gathered(all, locals, P, ns, ns, 0)
    ensures all == Flatten(locals)
  {
    FlattenUniform(locals, ns);
    forall k | 0 <= k < |all| ensures all[k] == Flatten(locals)[k] {
      SlotOnto(P, ns, k);
    }
  }
}
