/** The block distribution of `n` items over `P` ranks: every rank gets
    `n / P` items and the first `n % P` ranks one more.  The DNA sort's
    `main` builds the count and displacement arrays of its scatter this way;
    the odd-even sort computes each rank's `local_n` with the same rule and
    rebuilds the arrays on the root for its gathers. */
module BlockDistribution {
  import opened Seqs

  function Min(x: int, y: int): int {
    if x <= y then x else y
  }

  /** How many of the `n` items rank `r` holds: one of two neighbouring sizes. */
  function LocalCount(n: int, P: int, r: int): (c: int)
    requires n >= 0 && P >= 1
    ensures n / P <= c <= n / P + 1
  {
    n / P + (if r < n % P then 1 else 0)
  }

  /** The count array of the distribution. */
  function Counts(n: int, P: int): (r: seq<int>)
    requires n >= 0 && P >= 1
    ensures |r| == P && forall k :: 0 <= k < P ==> r[k] == LocalCount(n, P, k)
  {
    seq(P, k requires 0 <= k < P => LocalCount(n, P, k))
  }

  /** The first `k` ranks hold `k * (n / P)` items plus one for each of them
      below `n % P`: the displacement of rank `k`. */
  lemma {:induction false} PrefixOfCounts(n: int, P: int, k: int)
    requires n >= 0 && P >= 1 && 0 <= k <= P
    ensures Sum(Counts(n, P)[..k]) == k * (n / P) + Min(k, n % P)
  {
    if k == 0 {
      assert Counts(n, P)[..0] == [];
    } else {
      PrefixOfCounts(n, P, k - 1);
      SumStep(Counts(n, P), k - 1);
      assert (k - 1) * (n / P) + n / P == k * (n / P);
    }
  }

  /** Every item is dealt to exactly one rank: the counts add up to `n`. */
  lemma SumOfCounts(n: int, P: int)
    requires n >= 0 && P >= 1
    ensures Sum(Counts(n, P)) == n
  {
    PrefixOfCounts(n, P, P);
    assert Counts(n, P)[..P] == Counts(n, P);
  }

  /** The sizes are balanced: a later rank never holds more than an earlier
      one, and at most one item less. */
  lemma CountsBalanced(n: int, P: int, r: int, s: int)
    requires n >= 0 && P >= 1 && 0 <= r <= s < P
    ensures LocalCount(n, P, s) <= LocalCount(n, P, r) <= LocalCount(n, P, s) + 1
  {
  }

  /** The loop of the DNA sort's `main` that fills `counts` with the rank
      sizes and `displs` with where each rank's block starts. */
  method BlockCounts(n: int, P: int) returns (counts: array<int>, displs: array<int>)
    requires n >= 0 && P >= 1
    ensures counts.Length == P && displs.Length == P
    ensures forall r :: 0 <= r < P ==> counts[r] == LocalCount(n, P, r)
    ensures forall r :: 0 <= r < P ==> displs[r] == Sum(Counts(n, P)[..r])
  {
    counts := new int[P];
    displs := new int[P];
    var localN, remainder := n / P, n % P;
    ghost var C := Counts(n, P);
    ghost var D := PrefixSums(C);
    var i := 0;
    while i < P
      invariant 0 <= i <= P
      invariant forall r :: 0 <= r < i ==> counts[r] == C[r] && displs[r] == D[r]
    {
      counts[i] := localN + (if i < remainder then 1 else 0);
      PrefixSumsStep(C, i);
      if i == 0 {
        displs[i] := 0;
      } else {
        displs[i] := displs[i - 1] + counts[i - 1];
      }
      i := i + 1;
    }
    forall r | 0 <= r < P ensures displs[r] == Sum(C[..r]) {
      PrefixSumsAt(C, r);
    }
  }

  /** The odd-even sort's root rebuilds the arrays from its own `local_n`
      (rank 0's size) and the same rule for ranks 1 to `P - 1`. */
  method OddEvenCounts(n: int, P: int, localN: int) returns (counts: array<int>, displacements: array<int>)
    requires n >= 0 && P >= 1
    requires localN == LocalCount(n, P, 0)
    ensures counts.Length == P && displacements.Length == P
    ensures forall r :: 0 <= r < P ==> counts[r] == LocalCount(n, P, r)
    ensures forall r :: 0 <= r < P ==> displacements[r] == Sum(Counts(n, P)[..r])
  {
    counts := new int[P];
    displacements := new int[P];
    var remainder := n % P;
    ghost var C := Counts(n, P);
    ghost var D := PrefixSums(C);
    counts[0] := localN;
    displacements[0] := 0;
    PrefixSumsStep(C, 0);
    var i := 1;
    while i < P
      invariant 1 <= i <= P
      invariant forall r :: 0 <= r < i ==> counts[r] == C[r] && displacements[r] == D[r]
    {
      var otherN := n / P;
      if i < remainder {
        otherN := otherN + 1;
      }
      counts[i] := otherN;
      PrefixSumsStep(C, i);
      displacements[i] := displacements[i - 1] + counts[i - 1];
      i := i + 1;
    }
    forall r | 0 <= r < P ensures displacements[r] == Sum(C[..r]) {
      PrefixSumsAt(C, r);
    }
  }

  /** The blocks tile the items: they start at 0, follow one another
      without gaps and end at `n`. */
  lemma BlocksTile(n: int, P: int, r: int)
    requires n >= 0 && P >= 1 && 0 <= r < P
    ensures Sum(Counts(n, P)[..r + 1]) == Sum(Counts(n, P)[..r]) + LocalCount(n, P, r)
    ensures Sum(Counts(n, P)[..0]) == 0 && Sum(Counts(n, P)[..P]) == n
  {
    SumStep(Counts(n, P), r);
    assert Counts(n, P)[..0] == [];
    SumOfCounts(n, P);
    assert Counts(n, P)[..P] == Counts(n, P);
  }
}
