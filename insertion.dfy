/** The insertion sort that the split sort uses on short ranges, on
    `a[left..right]` (both ends inclusive, as in the C code), with the
    comparison `le` standing for `<=` on `int` or `strcmp(x, y) <= 0` on
    strings: the inner loop shifts while the cell below is not `le` the key. */
module Insertion {
  import opened Order
  import opened Slices

  /** Where the inner loop of insertion stops when it lifts `key` out and
      scans down from cell `j`: the first cell at or below `j` that is `le`
      `key`, or `left - 1` when there is none in `[left, j]`. */
  function ScanFrom<T>(s: seq<T>, left: int, j: int, key: T, le: (T, T) -> bool): (r: int)
    requires 0 <= left && left - 1 <= j < |s|
    ensures left - 1 <= r <= j
    ensures r < left || le(s[r], key)
    ensures forall k :: r < k <= j ==> !le(s[k], key)
    decreases j
  {
    if j >= left && !le(s[j], key) then ScanFrom(s, left, j - 1, key, le) else j
  }

  /** One pass of the outer loop on a value: cell `i` is lifted out and put
      back just above the cell where the scan down from `i - 1` stops, the
      cells in between moving one place up. */
  function InsertAt<T>(s: seq<T>, left: int, i: int, le: (T, T) -> bool): (r: seq<T>)
    requires 0 <= left < i < |s|
    ensures |r| == |s|
  {
    var j := ScanFrom(s, left, i - 1, s[i], le);
    s[..j + 1] + [s[i]] + s[j + 1..i] + s[i + 1..]
  }

  /** Placing `key` between a sorted run whose last element is `le` it and a
      sorted run of elements that are not `le` it gives a sorted sequence. */
  lemma InsertionOrder<T(!new)>(low: seq<T>, key: T, high: seq<T>, le: (T, T) -> bool)
    requires TotalOrder(le)
    requires Sorted(low + high, le)
    requires low == [] || le(low[|low| - 1], key)
    requires forall k :: 0 <= k < |high| ==> !le(high[k], key)
    ensures Sorted(low + [key] + high, le)
  {
    var s, r, n := low + high, low + [key] + high, |low|;
    forall p, q | 0 <= p < q < |r| ensures le(r[p], r[q]) {
      if q < n {
        assert r[p] == s[p] && r[q] == s[q];
      } else if q == n {
        assert r[p] == s[p] && r[q] == key;
        if p < n - 1 {
          assert le(s[p], s[n - 1]);
          assert OrderLaws(le, s[p], s[n - 1], key);
        }
      } else if p < n {
        assert r[p] == s[p] && r[q] == s[q - 1];
      } else if p == n {
        assert r[q] == high[q - n - 1];
        assert OrderLaws(le, key, r[q], r[q]);
      } else {
        assert r[p] == s[p - 1] && r[q] == s[q - 1];
      }
    }
  }

  /** The array during the inner insertion loop: the cells `s[j+1..i)` have
      each moved one place up, over the cell `i`, and cell `j + 1` still holds
      its old value. */
  ghost function Shifted<T>(s: seq<T>, j: int, i: int): (r: seq<T>)
    requires -1 <= j < i < |s|
    ensures |r| == |s|
  {
    s[..j + 2] + s[j + 1..i] + s[i + 1..]
  }

  /** Before the inner loop nothing has moved. */
  lemma ShiftedStart<T>(s: seq<T>, i: int)
    requires 0 <= i < |s|
    ensures Shifted(s, i - 1, i) == s
  {
    assert s == s[..i + 1] + s[i + 1..];
  }

  /** Below the moved cells the array is as before. */
  lemma ShiftedBelow<T>(s: seq<T>, j: int, i: int)
    requires 0 <= j < i < |s|
    ensures Shifted(s, j, i)[j] == s[j]
  {
    assert Shifted(s, j, i)[j] == s[..j + 2][j];
  }

  /** Moving cell `j` up into cell `j + 1` extends the moved part by one cell. */
  lemma ShiftedStep<T>(s: seq<T>, j: int, i: int)
    requires 0 <= j < i < |s|
    ensures Shifted(s, j, i)[j + 1 := s[j]] == Shifted(s, j - 1, i)
  {
    var t, u := Shifted(s, j, i)[j + 1 := s[j]], Shifted(s, j - 1, i);
    forall k | 0 <= k < |s| ensures t[k] == u[k] {
      if k <= j {
        assert t[k] == s[k] == u[k];
      } else if k <= i {
        assert t[k] == s[k - 1] == u[k];
      } else {
        assert t[k] == s[k] == u[k];
      }
    }
  }

  /** When the scan for `s[i]` stopped at `j`, storing the lifted cell in
      the freed cell `j + 1` completes the insertion. */
  lemma DropIsInsertAt<T>(s: seq<T>, left: int, j: int, i: int, le: (T, T) -> bool)
    requires 0 <= left < i < |s|
    requires j == ScanFrom(s, left, i - 1, s[i], le)
    ensures Shifted(s, j, i)[j + 1 := s[i]] == InsertAt(s, left, i, le)
  {
    ShiftedDrop(s, j, i);
  }

  /** Storing the lifted cell `s[i]` in the freed cell `j + 1`. */
  lemma ShiftedDrop<T>(s: seq<T>, j: int, i: int)
    requires -1 <= j < i < |s|
    ensures Shifted(s, j, i)[j + 1 := s[i]] == s[..j + 1] + [s[i]] + s[j + 1..i] + s[i + 1..]
  {
    var t, u := Shifted(s, j, i)[j + 1 := s[i]], s[..j + 1] + [s[i]] + s[j + 1..i] + s[i + 1..];
    forall k | 0 <= k < |s| ensures t[k] == u[k] {
      if k <= j {
        assert t[k] == s[k] == u[k];
      } else if k == j + 1 {
        assert t[k] == s[i] == u[k];
      } else if k <= i {
        assert t[k] == s[k - 1] == u[k];
      } else {
        assert t[k] == s[k] == u[k];
      }
    }
  }

  /** Moving `s[i]` down to position `j + 1` rearranges only `[left, i]`:
      the run `s[left..j]`, then `s[i]`, then the cells `s[j+1..i)`. */
  lemma RotateFacts<T>(s: seq<T>, t: seq<T>, left: int, j: int, i: int)
    requires 0 <= left <= j + 1 <= i < |s|
    requires t == s[..j + 1] + [s[i]] + s[j + 1..i] + s[i + 1..]
    ensures t[..left] == s[..left] && t[i + 1..] == s[i + 1..]
    ensures t[left..i + 1] == s[left..j + 1] + [s[i]] + s[j + 1..i]
    ensures s[left..i + 1] == s[left..j + 1] + s[j + 1..i] + [s[i]]
  {
    var u := s[left..j + 1] + [s[i]] + s[j + 1..i];
    forall k | 0 <= k < i + 1 - left ensures t[left..i + 1][k] == u[k] {
      assert t[left..i + 1][k] == t[left + k];
    }
    var v := s[left..j + 1] + s[j + 1..i] + [s[i]];
    forall k | 0 <= k < i + 1 - left ensures s[left..i + 1][k] == v[k] {
      assert s[left..i + 1][k] == s[left + k];
    }
    assert t[..left] == s[..j + 1][..left];
    assert t[i + 1..] == s[i + 1..];
  }

  /** Putting `s[i]` just above the cell where the scan stopped: the run
      `s[left..j]` is `le` it and the cells `s[j+1..i)` are not, so with it
      between them the sorted run `s[left..i)` stays sorted. */
  lemma SortedAfterRotate<T(!new)>(s: seq<T>, left: int, j: int, i: int, le: (T, T) -> bool)
    requires TotalOrder(le)
    requires 0 <= left <= j + 1 <= i < |s|
    requires Sorted(s[left..i], le)
    requires j + 1 == left || le(s[j], s[i])
    requires forall k :: j + 1 <= k < i ==> !le(s[k], s[i])
    ensures Sorted(s[left..j + 1] + [s[i]] + s[j + 1..i], le)
  {
    var low, high := s[left..j + 1], s[j + 1..i];
    SplitInTwoAt(s, left, j + 1, i);
    forall k | 0 <= k < |high| ensures !le(high[k], s[i]) {
      assert high[k] == s[j + 1 + k];
    }
    assert low != [] ==> low[|low| - 1] == s[j];
    InsertionOrder(low, s[i], high, le);
  }

  /** One pass of the outer insertion loop on snapshots: `prev` holds a
      rearrangement of `s0[left..i)` and is otherwise `s0`, and `cur`
      rearranges `prev[left..i]`; so `cur` rearranges `s0[left..i]`. */
  lemma SortedRunGrows<T>(s0: seq<T>, prev: seq<T>, cur: seq<T>, left: int, i: int)
    requires 0 <= left < i < |s0| == |prev| == |cur|
    requires multiset(prev[left..i]) == multiset(s0[left..i])
    requires prev[..left] == s0[..left] && prev[i..] == s0[i..]
    requires multiset(cur[left..i + 1]) == multiset(prev[left..i + 1])
    requires cur[..left] == prev[..left] && cur[i + 1..] == prev[i + 1..]
    ensures multiset(cur[left..i + 1]) == multiset(s0[left..i + 1])
    ensures cur[..left] == s0[..left] && cur[i + 1..] == s0[i + 1..]
  {
    assert prev[left..i + 1] == prev[left..i] + [prev[i]];
    assert s0[left..i + 1] == s0[left..i] + [s0[i]];
    assert prev[i] == prev[i..][0] == s0[i..][0] == s0[i];
    AgreeAbove(prev, s0, i, i + 1);
  }

  /** The inner loop of insertion sort: starting below cell `i`, shift every
      cell that is not `le` `key` one place up, stopping at the first cell that
      is `le` `key` or below `left`; returns the index below the freed slot. */
  method ShiftUp<T>(a: array<T>, left: int, i: int, key: T, le: (T, T) -> bool, ghost s: seq<T>) returns (j: int)
    requires 0 <= left < i < a.Length && a[..] == s
    modifies a
    ensures j == ScanFrom(s, left, i - 1, key, le)
    ensures a[..] == Shifted(s, j, i)
  {
    j := i - 1;
    ShiftedStart(s, i);
    while j >= left && !le(a[j], key)
      invariant left - 1 <= j < i
      invariant a[..] == Shifted(s, j, i)
      invariant ScanFrom(s, left, j, key, le) == ScanFrom(s, left, i - 1, key, le)
    {
      ShiftedBelow(s, j, i);
      ShiftedStep(s, j, i);
      ghost var prev := a[..];
      a[j + 1] := a[j];
      assert a[..] == prev[j + 1 := s[j]];
      j := j - 1;
    }
    if j >= left {
      ShiftedBelow(s, j, i);
    }
  }

  /** One pass of the outer insertion loop: cell `i` is lifted out, the larger
      cells below it move up one place, and it is dropped into the freed slot.
      The array holds the sorted run `run`, a permutation of `s0[left..i)`,
      between the unchanged parts of `s0`; afterwards it holds the sorted run
      `run'`, a permutation of `s0[left..i]`. */
  method InsertCell<T(!new)>(a: array<T>, left: int, i: int, le: (T, T) -> bool, ghost s0: seq<T>, ghost run: seq<T>)
    returns (ghost run': seq<T>)
    requires TotalOrder(le)
    requires 0 <= left < i < a.Length == |s0| && |run| == i - left
    requires a[..] == s0[..left] + run + s0[i..]
    requires Sorted(run, le) && multiset(run) == multiset(s0[left..i])
    modifies a
    ensures |run'| == i + 1 - left && a[..] == s0[..left] + run' + s0[i + 1..]
    ensures Sorted(run', le) && multiset(run') == multiset(s0[left..i + 1])
  {
    var key := a[i];
    ghost var s := a[..];
    var j := ShiftUp(a, left, i, key, le, s);
    ghost var t := a[..];
    a[j + 1] := key;
    assert a[..] == t[j + 1 := s[i]];
    DropIsInsertAt(s, left, j, i, le);
    run' := InsertPass(s0, run, s, left, i, le);
  }

  /** Insertion sort of `a[left..right]` (both ends inclusive): each cell in
      turn from `left + 1` on is lifted out and the larger cells before it are
      shifted up one place until its slot is found. */
  method InsertionSort<T(!new)>(a: array<T>, left: int, right: int, le: (T, T) -> bool)
    requires TotalOrder(le)
    requires 0 <= left <= right + 1 <= a.Length
    modifies a
    ensures Sorted(a[left..right + 1], le)
    ensures multiset(a[left..right + 1]) == old(multiset(a[left..right + 1]))
    ensures a[..left] == old(a[..left]) && a[right + 1..] == old(a[right + 1..])
  {
    if right < left {
      // an empty range: the loop below would not run
      return;
    }
    ghost var s0 := a[..];
    ghost var run := s0[left..left + 1];
    assert a[..] == s0[..left] + run + s0[left + 1..];
    var i := left + 1;
    while i <= right
      invariant left < i <= right + 1
      invariant |run| == i - left && a[..] == s0[..left] + run + s0[i..]
      invariant Sorted(run, le) && multiset(run) == multiset(s0[left..i])
    {
      run := InsertCell(a, left, i, le, s0, run);
      i := i + 1;
    }
    RunEnd(s0, a[..], run, left, right, le);
  }

  /** After the outer loop the whole range is the sorted run. */
  lemma RunEnd<T>(s0: seq<T>, s1: seq<T>, run: seq<T>, left: int, right: int, le: (T, T) -> bool)
    requires 0 <= left <= right < |s0| && |run| == right + 1 - left
    requires s1 == s0[..left] + run + s0[right + 1..]
    requires Sorted(run, le) && multiset(run) == multiset(s0[left..right + 1])
    ensures Sorted(s1[left..right + 1], le)
    ensures multiset(s1[left..right + 1]) == multiset(s0[left..right + 1])
    ensures s1[..left] == s0[..left] && s1[right + 1..] == s0[right + 1..]
  {
    Parts(s1, s0[..left], run, s0[right + 1..]);
  }

  /** One pass of the outer loop on an array that holds the sorted run `run`,
      a permutation of `s0[left..i)`, between unchanged outer parts: the result
      holds a sorted run one cell longer, a permutation of `s0[left..i]`. */
  lemma InsertPass<T(!new)>(s0: seq<T>, run: seq<T>, prev: seq<T>, left: int, i: int, le: (T, T) -> bool)
    returns (run': seq<T>)
    requires TotalOrder(le)
    requires 0 <= left < i < |s0| && |run| == i - left
    requires prev == s0[..left] + run + s0[i..]
    requires Sorted(run, le) && multiset(run) == multiset(s0[left..i])
    ensures |run'| == i + 1 - left
    ensures InsertAt(prev, left, i, le) == s0[..left] + run' + s0[i + 1..]
    ensures Sorted(run', le) && multiset(run') == multiset(s0[left..i + 1])
  {
    Parts(prev, s0[..left], run, s0[i..]);
    var cur := InsertAt(prev, left, i, le);
    InsertionRunStep(s0, prev, cur, left, i, le);
    run' := cur[left..i + 1];
    assert cur == cur[..left] + run' + cur[i + 1..];
  }

  /** One pass of the outer loop turns a sorted run `s[left..i)` into a
      sorted run `[left, i]` holding the same cells, and changes nothing else. */
  lemma InsertAtSorts<T(!new)>(s: seq<T>, left: int, i: int, le: (T, T) -> bool)
    requires TotalOrder(le)
    requires 0 <= left < i < |s|
    requires Sorted(s[left..i], le)
    ensures Sorted(InsertAt(s, left, i, le)[left..i + 1], le)
    ensures multiset(InsertAt(s, left, i, le)[left..i + 1]) == multiset(s[left..i + 1])
    ensures InsertAt(s, left, i, le)[..left] == s[..left] && InsertAt(s, left, i, le)[i + 1..] == s[i + 1..]
  {
    var j := ScanFrom(s, left, i - 1, s[i], le);
    RotateFacts(s, InsertAt(s, left, i, le), left, j, i);
    SortedAfterRotate(s, left, j, i, le);
  }

  /** One pass of the outer loop extends the sorted run by one cell: `prev`
      is the array when the loop reaches cell `i`, holding a sorted
      permutation of `s0[left..i)` and otherwise `s0`, and `cur` is the array
      after the pass. */
  lemma InsertionRunStep<T(!new)>(s0: seq<T>, prev: seq<T>, cur: seq<T>, left: int, i: int, le: (T, T) -> bool)
    requires TotalOrder(le)
    requires 0 <= left < i < |s0| == |prev|
    requires cur == InsertAt(prev, left, i, le)
    requires Sorted(prev[left..i], le)
    requires multiset(prev[left..i]) == multiset(s0[left..i])
    requires prev[..left] == s0[..left] && prev[i..] == s0[i..]
    ensures Sorted(cur[left..i + 1], le)
    ensures multiset(cur[left..i + 1]) == multiset(s0[left..i + 1])
    ensures cur[..left] == s0[..left] && cur[i + 1..] == s0[i + 1..]
  {
    InsertAtSorts(prev, left, i, le);
    SortedRunGrows(s0, prev, cur, left, i);
  }
}
