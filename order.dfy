/** Total orders, sorted sequences and the two-way merge that every sorting
    routine of the model shares.  The integer programs compare with `<=`;
    the DNA programs compare C strings with `strcmp` (module CString). */
module Order {

  /** The laws of a total order for one triple of values: antisymmetry,
      transitivity and totality (hence reflexivity). */
  ghost predicate OrderLaws<T>(le: (T, T) -> bool, x: T, y: T, z: T) {
    && (le(x, y) && le(y, x) ==> x == y)
    && (le(x, y) && le(y, z) ==> le(x, z))
    && (le(x, y) || le(y, x))
  }

  /** `le` is a total order.  The laws are used only where a proof names the
      values they are needed for (`assert OrderLaws(le, x, y, z)`). */
  ghost predicate TotalOrder<T(!new)>(le: (T, T) -> bool) {
    forall x, y, z {:trigger OrderLaws(le, x, y, z)} :: OrderLaws(le, x, y, z)
  }

  /** Every element is `le` every later element. */
  ghost predicate Sorted<T>(s: seq<T>, le: (T, T) -> bool) {
    forall i, j :: 0 <= i < j < |s| ==> le(s[i], s[j])
  }

  /** In a sorted sequence an element is `le` every element at or after it. */
  lemma SortedLe<T(!new)>(s: seq<T>, p: int, q: int, le: (T, T) -> bool)
    requires TotalOrder(le) && Sorted(s, le) && 0 <= p <= q < |s|
    ensures le(s[p], s[q])
  {
    if p == q {
      assert OrderLaws(le, s[p], s[p], s[p]);
    }
  }

  /** The comparison of the integer programs: `x <= y` on C `int`s. */
  function IntLe(x: int, y: int): bool {
    x <= y
  }

  lemma IntLeIsTotalOrder()
    ensures TotalOrder(IntLe)
  {
    forall x: int, y: int, z: int ensures OrderLaws(IntLe, x, y, z) {
    }
  }

  /** The result of the textbook two-way merge loop run from positions `i` of
      `a` and `j` of `b`: while both have elements left, take the next one of
      `a` when it is `le` the next one of `b` (ties go to `a`), otherwise the
      next one of `b`; then the leftovers of whichever is not used up. */
  function MergeFrom<T>(a: seq<T>, b: seq<T>, i: nat, j: nat, le: (T, T) -> bool): (r: seq<T>)
    requires i <= |a| && j <= |b|
    ensures |r| == |a| - i + |b| - j
    decreases |a| - i + |b| - j
  {
    if i == |a| then b[j..]
    else if j == |b| then a[i..]
    else if le(a[i], b[j]) then [a[i]] + MergeFrom(a, b, i + 1, j, le)
    else [b[j]] + MergeFrom(a, b, i, j + 1, le)
  }

  /** The whole merge of `a` and `b`. */
  function Merged<T>(a: seq<T>, b: seq<T>, le: (T, T) -> bool): (r: seq<T>)
    ensures |r| == |a| + |b|
  {
    MergeFrom(a, b, 0, 0, le)
  }

  /** Merging loses and invents nothing: the merge from `i` and `j` is a
      permutation of `a[i..] + b[j..]`. */
  lemma {:induction false} MergeFromMultiset<T>(a: seq<T>, b: seq<T>, i: nat, j: nat, le: (T, T) -> bool)
    requires i <= |a| && j <= |b|
    ensures multiset(MergeFrom(a, b, i, j, le)) == multiset(a[i..]) + multiset(b[j..])
    decreases |a| - i + |b| - j
  {
    if i == |a| {
      assert a[i..] == [];
    } else if j == |b| {
      assert b[j..] == [];
    } else if le(a[i], b[j]) {
      MergeFromMultiset(a, b, i + 1, j, le);
      TakeHeadMultiset(a, i, MergeFrom(a, b, i + 1, j, le), multiset(b[j..]));
    } else {
      MergeFromMultiset(a, b, i, j + 1, le);
      TakeHeadMultiset(b, j, MergeFrom(a, b, i, j + 1, le), multiset(a[i..]));
    }
  }

  /** Taking the element at position `i` of `s` in front of a merge of the rest. */
  lemma TakeHeadMultiset<T>(s: seq<T>, i: int, m: seq<T>, other: multiset<T>)
    requires 0 <= i < |s|
    requires multiset(m) == multiset(s[i + 1..]) + other
    ensures multiset([s[i]] + m) == multiset(s[i..]) + other
  {
    assert s[i..] == [s[i]] + s[i + 1..];
  }

  /** The merge is a permutation of the concatenation of its inputs. */
  lemma MergedMultiset<T>(a: seq<T>, b: seq<T>, le: (T, T) -> bool)
    ensures multiset(Merged(a, b, le)) == multiset(a + b)
  {
    MergeFromMultiset(a, b, 0, 0, le);
    assert a[0..] == a && b[0..] == b;
  }

  /** Prepending an element that is `le` everything keeps a sequence sorted. */
  lemma SortedCons<T>(x: T, s: seq<T>, le: (T, T) -> bool)
    requires Sorted(s, le)
    requires forall y :: y in s ==> le(x, y)
    ensures Sorted([x] + s, le)
  {
    var t := [x] + s;
    forall i, j | 0 <= i < j < |t| ensures le(t[i], t[j]) {
      if i > 0 {
        assert t[i] == s[i - 1] && t[j] == s[j - 1];
      } else {
        assert t[j] == s[j - 1] && s[j - 1] in s;
      }
    }
  }

  /** Two sorted sequences whose elements are ordered across the seam concatenate to a sorted one. */
  lemma SortedAppend<T>(a: seq<T>, b: seq<T>, le: (T, T) -> bool)
    requires Sorted(a, le) && Sorted(b, le)
    requires forall x, y :: x in a && y in b ==> le(x, y)
    ensures Sorted(a + b, le)
  {
    var t := a + b;
    forall i, j | 0 <= i < j < |t| ensures le(t[i], t[j]) {
      if j < |a| {
        assert t[i] == a[i] && t[j] == a[j];
      } else if i >= |a| {
        assert t[i] == b[i - |a|] && t[j] == b[j - |a|];
      } else {
        assert t[i] == a[i] && t[j] == b[j - |a|];
        assert a[i] in a && b[j - |a|] in b;
      }
    }
  }

  /** Merging from two positions of sorted sequences gives a sorted sequence. */
  lemma {:induction false} MergeFromSorted<T(!new)>(a: seq<T>, b: seq<T>, i: nat, j: nat, le: (T, T) -> bool)
    requires TotalOrder(le)
    requires Sorted(a, le) && Sorted(b, le)
    requires i <= |a| && j <= |b|
    ensures Sorted(MergeFrom(a, b, i, j, le), le)
    decreases |a| - i + |b| - j
  {
    if i == |a| {
      SortedSuffix(b, j, le);
    } else if j == |b| {
      SortedSuffix(a, i, le);
    } else if le(a[i], b[j]) {
      MergeFromSorted(a, b, i + 1, j, le);
      MergeFromMultiset(a, b, i + 1, j, le);
      LeastOfRest(a[i], a, i + 1, b, j, MergeFrom(a, b, i + 1, j, le), le);
    } else {
      MergeFromSorted(a, b, i, j + 1, le);
      MergeFromMultiset(a, b, i, j + 1, le);
      assert OrderLaws(le, a[i], b[j], b[j]);
      LeastOfRest(b[j], a, i, b, j + 1, MergeFrom(a, b, i, j + 1, le), le);
    }
  }

  /** An element that is `le` the next element of both sorted inputs is `le`
      everything in any permutation of what is left of them, so it can be put
      in front of a sorted such permutation. */
  lemma LeastOfRest<T(!new)>(x: T, a: seq<T>, i: nat, b: seq<T>, j: nat, m: seq<T>, le: (T, T) -> bool)
    requires TotalOrder(le)
    requires Sorted(a, le) && Sorted(b, le)
    requires i <= |a| && j <= |b|
    requires multiset(m) == multiset(a[i..]) + multiset(b[j..])
    requires i < |a| ==> le(x, a[i])
    requires j < |b| ==> le(x, b[j])
    requires Sorted(m, le)
    ensures Sorted([x] + m, le)
  {
    forall y | y in m ensures le(x, y) {
      assert y in multiset(m);
      if y in multiset(a[i..]) {
        assert y in a[i..];
        var k :| i <= k < |a| && a[k] == y;
        assert k == i || le(a[i], a[k]);
        assert OrderLaws(le, x, a[i], a[k]);
      } else {
        assert y in b[j..];
        var k :| j <= k < |b| && b[k] == y;
        assert k == j || le(b[j], b[k]);
        assert OrderLaws(le, x, b[j], b[k]);
      }
    }
    SortedCons(x, m, le);
  }

  /** Merging two sorted sequences gives a sorted sequence. */
  lemma MergedSorted<T(!new)>(a: seq<T>, b: seq<T>, le: (T, T) -> bool)
    requires TotalOrder(le)
    requires Sorted(a, le) && Sorted(b, le)
    ensures Sorted(Merged(a, b, le), le)
  {
    MergeFromSorted(a, b, 0, 0, le);
  }

  /** A suffix of a sorted sequence is sorted. */
  lemma SortedSuffix<T>(s: seq<T>, i: int, le: (T, T) -> bool)
    requires 0 <= i <= |s| && Sorted(s, le)
    ensures Sorted(s[i..], le)
  {
    forall p, q | 0 <= p < q < |s| - i ensures le(s[i..][p], s[i..][q]) {
      assert s[i..][p] == s[i + p] && s[i..][q] == s[i + q];
    }
  }

  /** The head of a sorted sequence is `le` each of its elements. */
  lemma HeadIsLeast<T(!new)>(s: seq<T>, x: T, le: (T, T) -> bool)
    requires TotalOrder(le)
    requires Sorted(s, le) && x in s
    ensures le(s[0], x)
  {
    var k :| 0 <= k < |s| && s[k] == x;
    if k == 0 {
      assert OrderLaws(le, x, x, x);
    }
  }

  /** Dropping the head of a sorted sequence leaves it sorted. */
  lemma SortedTail<T>(s: seq<T>, le: (T, T) -> bool)
    requires s != [] && Sorted(s, le)
    ensures Sorted(s[1..], le)
  {
    forall i, j | 0 <= i < j < |s| - 1 ensures le(s[1..][i], s[1..][j]) {
      assert s[1..][i] == s[i + 1] && s[1..][j] == s[j + 1];
    }
  }

  lemma MultisetTail<T>(s: seq<T>)
    requires s != []
    ensures multiset(s[1..]) == multiset(s) - multiset{s[0]}
  {
    assert s == [s[0]] + s[1..];
  }

  /** A sorted arrangement of a multiset is unique: two sorted sequences with
      the same elements are equal. */
  lemma {:induction false} SortedUnique<T(!new)>(a: seq<T>, b: seq<T>, le: (T, T) -> bool)
    requires TotalOrder(le)
    requires Sorted(a, le) && Sorted(b, le)
    requires multiset(a) == multiset(b)
    ensures a == b
    decreases |a|
  {
    if a == [] {
      assert |b| == |multiset(b)| == 0;
    } else {
      assert a[0] in multiset(a);
      assert a[0] in b;
      HeadIsLeast(b, a[0], le);
      assert b[0] in multiset(b);
      assert b[0] in a;
      HeadIsLeast(a, b[0], le);
      assert OrderLaws(le, a[0], b[0], b[0]);
      assert a[0] == b[0];
      MultisetTail(a);
      MultisetTail(b);
      SortedTail(a, le);
      SortedTail(b, le);
      SortedUnique(a[1..], b[1..], le);
      assert a == [a[0]] + a[1..] && b == [b[0]] + b[1..];
    }
  }

  /** Merging is symmetric on sorted inputs: it does not matter which side comes first. */
  lemma MergedCommutes<T(!new)>(a: seq<T>, b: seq<T>, le: (T, T) -> bool)
    requires TotalOrder(le)
    requires Sorted(a, le) && Sorted(b, le)
    ensures Merged(a, b, le) == Merged(b, a, le)
  {
    MergedSorted(a, b, le);
    MergedSorted(b, a, le);
    MergedMultiset(a, b, le);
    MergedMultiset(b, a, le);
    assert multiset(a + b) == multiset(b + a);
    SortedUnique(Merged(a, b, le), Merged(b, a, le), le);
  }
}
