/** The stand-alone split sort program.  Its insertion sort and split sort
    are those of the other programs; its merge allocates the two temporary
    buffers with their sizes swapped: the buffer that receives the
    `n1 = meio - esq + 1` cells of the left run gets room for only
    `n2 = dir - meio`, and the one that receives the `n2` cells of the right
    run gets room for `n1`.  The split point `meio = esq + (dir - esq) / 2`
    makes `n1` equal to `n2` or one more, so the left copy runs one cell past
    its buffer exactly when the range has odd length. */
module SimpleSplitSort {
  import opened Order
  import opened Seqs
  import SplitSort

  /** Room in the buffer the left run is copied to, as allocated. */
  function LeftBufferAsWritten(esq: int, meio: int, dir: int): int {
    dir - meio
  }

  /** Room in the buffer the right run is copied to, as allocated. */
  function RightBufferAsWritten(esq: int, meio: int, dir: int): int {
    meio - esq + 1
  }

  /** Both copies of merge stay inside their buffers. */
  predicate CopiesFit(esq: int, meio: int, dir: int) {
    meio - esq + 1 <= LeftBufferAsWritten(esq, meio, dir) && dir - meio <= RightBufferAsWritten(esq, meio, dir)
  }

  /** At the split point the split sort uses, the right copy always fits
      and the left copy overflows exactly on ranges of odd length. */
  lemma OverflowIffOdd(esq: int, dir: int)
    requires esq < dir
    ensures var meio := esq + (dir - esq) / 2;
            dir - meio <= RightBufferAsWritten(esq, meio, dir) &&
            (CopiesFit(esq, meio, dir) <==> (dir - esq + 1) % 2 == 0)
  {
    var meio := esq + (dir - esq) / 2;
    var d := dir - esq;
    assert d == 2 * (d / 2) + d % 2;
  }

  /** The merges the split sort of `lista[left..right]` performs, in the
      order it performs them: none for ranges of at most
      INSERTION_THRESHOLD cells, otherwise those of both halves and then the
      merge of the halves. */
  function MergeCalls(left: int, right: int): (calls: seq<(int, int, int)>)
    ensures forall c :: c in calls ==> left <= c.0 <= c.1 < c.2 <= right && c.1 == c.0 + (c.2 - c.0) / 2
    decreases right - left
  {
    if right - left + 1 <= SplitSort.INSERTION_THRESHOLD then []
    else
      var mid := left + (right - left) / 2;
      MergeCalls(left, mid) + MergeCalls(mid + 1, right) + [(left, mid, right)]
  }

  /** The fixed 20-element test of `main` only merges even ranges: every
      copy fits. */
  lemma FixedTestFits()
    ensures MergeCalls(0, 19) == [(0, 9, 19)]
    ensures forall c :: c in MergeCalls(0, 19) ==> CopiesFit(c.0, c.1, c.2)
  {
    assert MergeCalls(0, 9) == [] && MergeCalls(10, 19) == [];
  }

  /** The 50-element random test of `main` reaches `merge(lista, 0, 12, 24)`,
      which copies 13 cells into a buffer of 12. */
  lemma RandomTestOverflows()
    ensures (0, 12, 24) in MergeCalls(0, 49)
    ensures !CopiesFit(0, 12, 24) && LeftBufferAsWritten(0, 12, 24) == 12
  {
    assert MergeCalls(0, 12) == [] && MergeCalls(13, 24) == [];
    assert MergeCalls(0, 24) == [(0, 12, 24)];
  }

  /** The numbers of the fixed test of `main`. */
  const FIXED_TEST: seq<int> := [64, 34, 25, 12, 22, 11, 90, 88, 76, 50, 42, 33, 21, 19, 8, 5, 3, 1, 99, 77]

  /** `main`'s sort of a list, as intended: the numbers are copied into a
      fresh array, which `splitsort(lista, 0, n - 1)` leaves sorted.  The
      merge it uses has buffers of the right sizes; the program as written
      overflows a buffer whenever one of the MergeCalls has odd length. */
  method SortList(s: seq<int>) returns (lista: array<int>)
    ensures Sorted(lista[..], IntLe) && multiset(lista[..]) == multiset(s)
  {
    IntLeIsTotalOrder();
    lista := FromSeq(s);
    var n := lista.Length;
    assert s == lista[0..n - 1 + 1];
    SplitSort.SplitSort(lista, 0, n - 1, IntLe);
    assert lista[..] == lista[0..n - 1 + 1];
  }

  /** The fixed test of `main`: the 20 numbers come out sorted. */
  method FixedTest() returns (lista: array<int>)
    ensures Sorted(lista[..], IntLe) && multiset(lista[..]) == multiset(FIXED_TEST)
  {
    lista := SortList(FIXED_TEST);
  }
}
