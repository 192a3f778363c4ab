# Parallel sorting programs, modelled in Dafny

This project models the sequential core of a small collection of C/MPI
sorting programs:

- **Split sort.** A hybrid sort: top-down merge sort over `lista[left..right]`
  (both ends inclusive) that switches to insertion sort on ranges of at most
  16 cells. It appears in four files, over `int` with `<=` and over C strings
  with `strcmp`.
- **Sample sort of numbers** (`parallel_splitsort`):
  - every rank sorts its block and samples `P - 1` local splitters;
  - the root gathers and sorts them, then picks `P - 1` global splitters;
  - every rank routes each element to the first splitter it does not exceed;
  - every rank counts the elements per target and lays out a send buffer
    grouped by target;
  - after the all-to-all exchange, every rank sorts what it received.
- **DNA program** (`parallel_dna_sort`). It has the same sampling steps over
  strings, but never redistributes: each rank sorts its own block twice.
  It also contains the block distribution `counts`/`displs`.
- **Stand-alone split sort** (`simple_split_sort.c`), with its two test runs.
- **Bucket sort** (`simple_bucket_sort.c`):
  - growable buckets (`Balde`) whose capacity doubles when full;
  - a min/max scan;
  - distribution by value range;
  - sorting each bucket with the split sort, then copying the buckets back.
- **Odd-even transposition sort over blocks of DNA strings**
  (`odd_even_paralelo.c`):
  - a two-way merge;
  - the keep-smaller / keep-larger compare-split;
  - the parity schedule of partners;
  - the block distribution of `n` items over `P` ranks.
- **Input generator** (`generate_sequence.c`): random strings over "ACGT",
  and the rule that keeps the output file inside `input/`.

The sorting routines are generic over the element type `T` and a comparison
`le` that is a total order (`Order.TotalOrder`: reflexive, antisymmetric,
transitive and total):

- `Order.IntLe` is `<=` on integers;
- `CString.StrLe` is `strcmp(a, b) <= 0`, with `CString.StrCmp` giving the
  sign `strcmp` returns.

Sortedness is `Order.Sorted`. A merge is specified by the function
`Order.Merged`: the stable merge, where ties go to the left run.

In-place algorithms keep their arrays: insertion sort, merge, split sort,
the send-buffer layout, `merge_sorted_arrays`, the keep-half copy, and the
bucket write-back. A `Balde` is the class `BucketSort.Bucket`. Each loop is
proved against a specification function, and the properties are proved
about that function.

MPI is replaced by its effect on the data. The ranks are simulated one after
the other over a `seq` of per-rank blocks:

- a gather lays the rows end to end;
- a broadcast hands every rank the same splitters;
- the all-to-all transposes the count matrix;
- the all-to-all-v hands rank `r` segment `r` of every send buffer, in rank
  order;
- an odd-even exchange reads the partner's block from the sequence of
  blocks.

`rand()` becomes a parameter: the sequence of values it returned.

## Model

| member | source | states |
|---|---|---|
| Order.IntLeIsTotalOrder | for_numbers/parallel_split_sort.c:208 | `<=` on `int`, the comparison the integer sorts use, is reflexive, antisymmetric, transitive and total |
| CString.StrCmpZero | for_DNAsequences/parallel_split_sort.c:11-13 | `strcmp` returns 0 exactly when the two strings are equal |
| CString.StrLeIsTotalOrder | for_DNAsequences/parallel_split_sort.c:20 | ordering strings by `strcmp(a, b) <= 0` is reflexive, antisymmetric, transitive and total, so the generic sort proofs apply to strings |
| Order.MergedMultiset | for_numbers/parallel_split_sort.c:225-231 | the stable merge of two runs holds exactly the elements of both runs |
| Order.MergedSorted | for_numbers/parallel_split_sort.c:225-231 | the merge of two sorted runs is sorted |
| Order.MergedCommutes | odd_even_paralelo.c:65-83 | for sorted runs, merging a with b gives the same sequence as merging b with a, so both partners of a compare-split compute one merge |
| Order.SortedUnique | odd_even_paralelo.c:102 | two sorted sequences with the same multiset are equal, so any correct sort gives the same output |
| Insertion.InsertionSort | for_numbers/parallel_split_sort.c:204-214 | `a[left..right]` ends sorted and a permutation of its old contents; cells outside the range are unchanged |
| TwoWayMerge.WriteMerge | for_numbers/parallel_split_sort.c:225-231 | the i/j/k loops write the stable merge of the two temporary runs into `lista[left..]` and change no other cell |
| TwoWayMerge.Merge | for_numbers/parallel_split_sort.c:216-235 | `lista[left..right]` becomes the stable merge of the old halves `[left..mid]` and `[mid+1..right]`: a permutation of the range, sorted when both halves were; nothing outside the range changes |
| SplitSort.SplitSort | for_numbers/parallel_split_sort.c:237-246 | on both the insertion path and the recursive path, the range ends sorted and a permutation of its old contents, nothing outside moves, and an already sorted range comes back unchanged |
| SplitSort.SortedIsFixed | for_numbers/parallel_split_sort.c:237-246 | a sorted permutation of a sorted range is that range itself |
| BlockDistribution.LocalCount | odd_even_paralelo.c:168-174 | every rank gets `n / P` or `n / P + 1` items |
| BlockDistribution.SumOfCounts | for_DNAsequences/parallel_split_sort.c:243-250 | the per-rank counts add up to the total number of items |
| BlockDistribution.CountsBalanced | for_DNAsequences/parallel_split_sort.c:250 | counts do not increase with the rank and differ by at most one |
| BlockDistribution.BlockCounts | for_DNAsequences/parallel_split_sort.c:246-252 | `counts[i]` is rank i's share and `displs[i]` is the sum of the counts before i (an exclusive prefix sum) |
| BlockDistribution.OddEvenCounts | odd_even_paralelo.c:195-206 | the root's `counts` agree with the `local_n` every rank computes for itself, and `displacements` is their exclusive prefix sum |
| BlockDistribution.BlocksTile | odd_even_paralelo.c:198-206 | rank r's block starts where rank r-1's ends; the first starts at 0 and the last ends at n, so the blocks tile `[0, n)` |
| Splitters.SampleIndexInRange | for_numbers/parallel_split_sort.c:109-113 | for a non-empty block, every sample index `(i+1)*n/P` is in `[0, n)`, so the clamp at line 111 never fires |
| Splitters.SampleIndexMono | for_numbers/parallel_split_sort.c:109-113 | sample indices do not decrease with i |
| Splitters.SamplesSorted | for_numbers/parallel_split_sort.c:109-113 | the samples of a sorted block are sorted |
| Splitters.SelectSplitters | for_numbers/parallel_split_sort.c:105-113 | the loop fills `local_splitters` with the `P - 1` samples of the block |
| Splitters.GlobalIndexExact | for_numbers/parallel_split_sort.c:128-132 | over `P*(P-1)` gathered splitters the index is exactly `(i+1)*(P-1)`, which is below `P*(P-1)`, so the clamp at line 130 never fires |
| Splitters.ChooseGlobalSplitters | for_numbers/parallel_split_sort.c:124-132 | the root sorts the gathered splitters as a permutation, and the chosen global splitters are its samples, which are sorted |
| Splitters.GatherSplitters | for_DNAsequences/parallel_split_sort.c:134-157 | writing splitter i of rank j to slot `j*(P-1)+i` (rank 0 included) leaves `all_splitters` equal to the ranks' rows laid end to end |
| Splitters.SlotInjective | for_DNAsequences/parallel_split_sort.c:141-157 | no two (rank, splitter) pairs are written to the same slot |
| Splitters.SlotOnto | for_DNAsequences/parallel_split_sort.c:141-157 | every slot of `all_splitters[0..P*(P-1))` is written by some (rank, splitter) pair |
| Routing.Target | for_numbers/parallel_split_sort.c:144-147 | the target is in `[0, P-1]`; the element is at most the splitter at the target when the target is below P-1, and greater than every splitter before it, so ties go to the lower rank |
| Routing.TargetMono | for_numbers/parallel_split_sort.c:142-149 | a larger element never goes to a lower rank |
| Routing.TargetOrders | for_numbers/parallel_split_sort.c:168-173 | an element routed to a lower rank is smaller than one routed to a higher rank |
| Routing.FindTarget | for_numbers/parallel_split_sort.c:143-147 | the `while` scan over `global_splitters` finds the routing target |
| Routing.SendCounts | for_numbers/parallel_split_sort.c:141-149 | `send_counts[t]` is the number of local elements routed to t |
| Routing.HistSum | for_numbers/parallel_split_sort.c:141-149 | the send counts add up to `local_n` |
| Routing.Displacements | for_numbers/parallel_split_sort.c:154-163 | `send_displs` and `recv_displs` are exclusive prefix sums of their counts, and `total_recv` is the sum of `recv_counts` |
| Routing.BucketMembers | for_numbers/parallel_split_sort.c:168-177 | a value is in the segment for t exactly when it occurs in the block and is routed to t |
| Routing.BucketsPartition | for_numbers/parallel_split_sort.c:165-177 | the segments for all targets together hold exactly the block's elements |
| Routing.SendLayout | for_numbers/parallel_split_sort.c:154-177 | the segments `[send_displs[t], send_displs[t] + send_counts[t])` are disjoint and tile `[0, local_n)` |
| Routing.BuildSendBuffer | for_numbers/parallel_split_sort.c:165-177 | `send_buffer` holds the elements routed to 0, then to 1, and so on, each group in original order; `temp_counts` ends equal to `send_counts` |
| SampleSort.LocalSortAndSample | for_numbers/parallel_split_sort.c:100-113 | the block is sorted as a permutation and `local_splitters` are its samples, which are sorted |
| SampleSort.SortAndSampleAll | for_numbers/parallel_split_sort.c:100-113 | every rank's block ends sorted and a permutation of its input, with `P - 1` samples |
| SampleSort.CountAll | for_numbers/parallel_split_sort.c:141-149 | every rank's `send_counts` is its histogram over the common splitters |
| SampleSort.LayoutAll | for_numbers/parallel_split_sort.c:154-177 | every rank's send buffer, counts and displacements are laid out as the send buffer construction states, and its `total_recv` is the column sum of the count matrix |
| SampleSort.Exchange | for_numbers/parallel_split_sort.c:179-185 | what rank r receives from the all-to-all-v is the sub-sequence of all ranks' elements, in rank order, that are routed to r |
| SampleSort.ExchangeIsBucket | for_numbers/parallel_split_sort.c:179-185 | the segments sent to r, concatenated in rank order, are the elements of the whole input routed to r |
| SampleSort.ReceivedCount | for_numbers/parallel_split_sort.c:151-163 | `total_recv` on rank r equals the number of input elements routed to r |
| SampleSort.ExchangeAll | for_numbers/parallel_split_sort.c:179-188 | after the exchange and the final split sort, every rank holds a sorted permutation of the input elements routed to it, `total_recv` of them |
| SampleSort.SortBlock | for_numbers/parallel_split_sort.c:187-188 | the final split sort returns a sorted permutation of the received block |
| SampleSort.SortedBuckets | for_numbers/parallel_split_sort.c:187-188 | if every rank holds a sorted permutation of the elements routed to it, the concatenation over ranks is sorted and a permutation of all input |
| SampleSort.ParallelSplitSort | for_numbers/parallel_split_sort.c:93-201 | end to end: the new blocks laid out in rank order are sorted and a permutation of all the old blocks, so no element is lost or duplicated |
| DnaSort.InsertionSortDna | for_DNAsequences/parallel_split_sort.c:16-26 | the string range ends sorted under `strcmp` order, a permutation of the old strings, and nothing outside moves |
| DnaSort.MergeDna | for_DNAsequences/parallel_split_sort.c:28-52 | the string range becomes the stable `strcmp` merge of its halves (ties left, `<= 0`), sorted when both halves were, a permutation, and nothing outside moves |
| DnaSort.SplitSortDna | for_DNAsequences/parallel_split_sort.c:54-63 | any string range ends sorted and a permutation, on both paths, and a sorted range is left as it was |
| DnaSort.SortAndSampleDna | for_DNAsequences/parallel_split_sort.c:122-132 | the block is sorted as a permutation and the local splitters are its samples, which are sorted |
| DnaSort.ResortDna | for_DNAsequences/parallel_split_sort.c:190 | the second split sort of an already sorted block changes nothing |
| DnaSort.ParallelDnaSort | for_DNAsequences/parallel_split_sort.c:114-204 | every rank ends with its own block sorted and a permutation of itself, with the same size, and the global splitters are sorted; nothing is redistributed |
| SimpleSplitSort.OverflowIffOdd | for_numbers/simple_split_sort.c:63-73 | at the split point, the right copy always fits its buffer as allocated, and the left copy fits exactly when the range has even length |
| SimpleSplitSort.MergeCalls | for_numbers/simple_split_sort.c:112-127 | every merge the split sort performs is inside the sorted range and is split at `left + (right-left)/2` |
| SimpleSplitSort.FixedTestFits | for_numbers/simple_split_sort.c:17-23 | the fixed 20-element test performs one merge, `(0, 9, 19)`, whose copies fit |
| SimpleSplitSort.RandomTestOverflows | for_numbers/simple_split_sort.c:30-40 | the 50-element random test performs `merge(lista, 0, 12, 24)`, which copies 13 cells into a 12-cell buffer |
| SimpleSplitSort.SortList | for_numbers/simple_split_sort.c:112-127 | the intended behaviour of `main`'s sort, with the merge buffers sized as intended (the corrected half of the Findings row): sorting a copied list with `splitsort(lista, 0, n-1)` gives a sorted permutation of it, for any list. As written, the sort overflows a buffer whenever one of its merges has odd length (SimpleSplitSort.OverflowIffOdd) |
| SimpleSplitSort.FixedTest | for_numbers/simple_split_sort.c:15-26 | the fixed test array ends sorted and a permutation of the 20 numbers |
| OddEven.MergeSortedArrays | odd_even_paralelo.c:21-39 | `result[0..size1+size2)` is the stable `strcmp` merge of the inputs: a permutation of both, sorted when both are; the rest of `result` is unchanged |
| OddEven.CompareSplit | odd_even_paralelo.c:65-83 | the kept part has exactly `local_size` strings |
| OddEven.KeepHalf | odd_even_paralelo.c:72-83 | keep-smaller copies `merged[0..local_size)`, keep-larger copies `merged[partner_size..partner_size+local_size)`, and nothing past `local_size` changes |
| OddEven.CompareSeparate | odd_even_paralelo.c:42-95 | `local_data[0..local_size)` becomes the compare-split of the old block with the partner's block, and the rest is untouched |
| OddEven.CompareSplitSorted | odd_even_paralelo.c:65-83 | when both blocks are sorted, the kept part is sorted |
| OddEven.PairSplit | odd_even_paralelo.c:65-83 | in a pair (lower keeps smaller, upper keeps larger), the two kept parts laid end to end are the merge of both blocks: together they hold every string of both, each is sorted, and every kept lower string is at most every kept upper string |
| OddEven.Schedule | odd_even_paralelo.c:104-141 | a rank only ever pairs with rank+1, keeping the smaller half, or with rank-1, keeping the larger half, and never with a rank outside `[0, P)` |
| OddEven.ScheduleIsMatching | odd_even_paralelo.c:104-141 | the partner relation is symmetric with opposite halves; pairs start at odd ranks in odd iterations and even ranks in even ones; rank 0 idles on odd iterations and the last rank idles when it has no upper partner |
| OddEven.Share | odd_even_paralelo.c:105-141 | every rank keeps a block of its own size in a round |
| OddEven.RankRound | odd_even_paralelo.c:105-141 | one rank's part of a round computes its share under the schedule |
| OddEven.Step | odd_even_paralelo.c:104-144 | a round keeps the number of blocks and the size of every block |
| OddEven.Round | odd_even_paralelo.c:104-144 | running every rank's part of a round gives the round's outcome |
| OddEven.StepKeepsSorted | odd_even_paralelo.c:104-144 | a round turns sorted blocks into sorted blocks |
| OddEven.StepKeepsStrings | odd_even_paralelo.c:104-144 | a round on sorted blocks keeps the multiset of all strings |
| OddEven.Rounds | odd_even_paralelo.c:104 | after any number of rounds there are as many blocks as ranks, each of its original size |
| OddEven.LocalSort | odd_even_paralelo.c:102 | the local sort gives a sorted permutation of the block |
| OddEven.OddEvenSortBlocks | odd_even_paralelo.c:98-145 | the first step sorts every block; after exactly `num_procs` rounds every block is sorted, keeps its size, and all blocks together hold the strings they started with |
| BucketSort.Bucket.constructor | for_numbers/simple_bucket_sort.c:136-142 | a new bucket is empty, with capacity 10 |
| BucketSort.Bucket.Add | for_numbers/simple_bucket_sort.c:145-151 | the element is appended after the old contents, which are unchanged; size grows by one and stays within capacity; capacity doubles exactly when the bucket was full |
| BucketSort.MinMax | for_numbers/simple_bucket_sort.c:162-169 | every value of `arr[0..n)` lies between `min_val` and `max_val`, and both occur in it |
| BucketSort.BucketIndex | for_numbers/simple_bucket_sort.c:172-183 | with the clamp at line 183, the bucket index is in `[0, num_baldes)` |
| BucketSort.BucketIndexMono | for_numbers/simple_bucket_sort.c:172-183 | the bucket index does not decrease with the value |
| BucketSort.CreateBuckets | for_numbers/simple_bucket_sort.c:174-178 | `num_baldes` fresh, empty, pairwise separate buckets, none sharing storage with `arr` |
| BucketSort.Buckets | for_numbers/simple_bucket_sort.c:180-185 | the distribution has one bucket per index |
| BucketSort.Scatter | for_numbers/simple_bucket_sort.c:184 | adding to bucket `index` appends the value to that bucket only |
| BucketSort.Distribute | for_numbers/simple_bucket_sort.c:180-185 | after the loop every bucket holds, in input order, exactly the values whose index is its own |
| BucketSort.BucketsMultiset | for_numbers/simple_bucket_sort.c:180-185 | the buckets together hold exactly the input multiset, so their sizes sum to n |
| BucketSort.BucketsRouted | for_numbers/simple_bucket_sort.c:180-185 | every value in bucket j lies in `[min_val, max_val]` and has index j |
| BucketSort.RoutedOrdered | for_numbers/simple_bucket_sort.c:180-200 | every value in a lower bucket is at most every value in a higher bucket |
| BucketSort.WriteBucket | for_numbers/simple_bucket_sort.c:190-198 | the bucket is sorted as a permutation and copied to `arr[index..]`; the next index is `index + size`; nothing past n changes |
| BucketSort.WriteBack | for_numbers/simple_bucket_sort.c:187-200 | `arr[0..n)` ends as the concatenation of the buckets, each sorted as a permutation of its contents, so index reaches n; nothing past n changes |
| BucketSort.BucketSort | for_numbers/simple_bucket_sort.c:159-203 | with `n <= 0` the array is untouched; otherwise `arr[0..n)` ends sorted and a permutation of its old contents, and the cells past n are unchanged |
| GenerateSequence.Truncate | generate_sequence.c:27-35 | `snprintf` into `char[4096]` keeps at most 4095 characters: the whole text when it fits, otherwise its prefix |
| GenerateSequence.OutputPath | generate_sequence.c:26-36 | the output path always starts with "input/" and has at most 4095 characters |
| GenerateSequence.OutputPathKeeps | generate_sequence.c:32-33 | a name already starting with "input/" is used unchanged when it fits |
| GenerateSequence.OutputPathAdds | generate_sequence.c:34-35 | any other name gets "input/" in front when the result fits |
| GenerateSequence.OutputPathCut | generate_sequence.c:27-36 | a path too long for the buffer is the first 4095 characters of what the rule would build |
| GenerateSequence.OutputPathIdempotent | generate_sequence.c:31-36 | applying the rule to its own output changes nothing |
| GenerateSequence.DnaSequence | generate_sequence.c:9-15 | for any `rand()` results, the sequence has one character per draw, each in "ACGT" |
| GenerateSequence.DnaSequenceOnto | generate_sequence.c:9-15 | every string over "ACGT" is produced by some `rand()` results |
| GenerateSequence.GenerateDnaSequence | generate_sequence.c:9-15 | `buffer[0..length)` receives the chosen nucleotides, then `buffer[length]` is NUL, and the cells after it are untouched |

The insertion sort, merge and split sort of `for_numbers/simple_split_sort.c`
(49-127) and `for_numbers/simple_bucket_sort.c` (48-126) are the same
algorithms as `for_numbers/parallel_split_sort.c:204-246`, and are modelled
by the same members. The one difference is the merge buffer sizes of
`simple_split_sort.c`, which is listed under Findings.

## Left out

- MPI: every call (send, receive, gather, scatter, broadcast, all-to-all,
  barrier, timing) is transport and concurrency. Only its effect on the data
  is modelled, as a sequential pass over the ranks. Blocking-send deadlocks
  are not modelled.
- SampleSort.ParallelSplitSort: requires every rank's block to be non-empty.
  The source returns early on `local_n == 0` (line 98) and then skips the
  collective calls the other ranks wait in, which is a deadlock.
- DnaSort.ParallelDnaSort: requires every block to be non-empty, for the
  same reason (line 119).
- SampleSort.ParallelSplitSort: takes the per-rank blocks as given.
  - The `main` of `for_numbers/parallel_split_sort.c` is driver code and is
    not modelled: its fixed 24-element array, handed out in equal blocks, and
    the final gather.
  - The DNA `main` is not modelled either: the file read, the collection on
    the root, the final `qsort` and the file write.
- File I/O, `printf` and `imprime` are not modelled: `read_dna_file`,
  `write_dna_file`, and the file loop of the generator's `main`.
- `rand`, `srand` and `time` become a parameter: the sequence of values
  `rand()` returned.
- `qsort` (odd_even_paralelo.c:102) is modelled as the split sort under the
  same order. `Order.SortedUnique` shows that any correct sort gives the same
  output.
- OddEven.LocalSort: sorts by `strcmp` order. The source's `compare_dna`
  (odd_even_paralelo.c:16-18) passes `char**` where `char*` is expected, so
  it compares pointer bytes; the intended lexicographic order is modelled
  instead.
- OddEven.OddEvenSortBlocks: does not state that the blocks, laid end to end,
  are sorted after `num_procs` rounds. The model proves that rounds keep every
  block sorted and keep all strings, but not the global sortedness of
  odd-even transposition.
- Strings as C buffers are not modelled:
  - they are sequences of characters, without the NUL terminator;
  - the `MAX_SEQ_LENGTH` receive buffers are left out;
  - the fixed `seq_length + 1` `strcpy` copies are left out.
- BucketSort.BucketIndex: uses the exact value `(v - min) * num_baldes /
  (max - min + 1)`, rounded down. The source divides by the `double`
  `intervalo` and truncates, and floating-point rounding is not modelled.
- BucketSort.BucketSort: requires `num_baldes >= 1`. With zero buckets the
  source divides by zero in floating point and indexes an empty array.
- The constant `NUM_BALDES` and the random 30-element test in `main` of
  `simple_bucket_sort.c` are driver code and are not modelled.
- `malloc` and `realloc` failure are not modelled. `free` and `liberar_balde`
  have no effect on the data. A `realloc` that moves the block is modelled as
  a fresh array holding the old contents.
- `Splitters.GatherSplitters`: models the slot layout of the splitter
  gather. The source sends and receives `strlen(local_splitters[i]) + 1`
  bytes, with `len` taken on each side from its own splitter; the lengths
  themselves are not modelled.
- for_DNAsequences/sequencial_qsort.c is not part of this model. It is file
  I/O around the library `qsort`.
- Integer widths: the model computes with unbounded integers and assumes
  that none of these 32-bit `int` expressions overflows:
  - the sample index product `(i+1)*n`
    (for_numbers/parallel_split_sort.c:110, 129);
  - the gather slot `j * num_splitters + i`
    (for_DNAsequences/parallel_split_sort.c:151);
  - the range width `max_val - min_val + 1`
    (for_numbers/simple_bucket_sort.c:172);
  - the offset `arr[i] - min_val` (for_numbers/simple_bucket_sort.c:182).
  The last two overflow when the values span more than `INT_MAX`.

## Findings

| source | as written | input that shows it | evidently intended | confidence | as-written member | corrected member |
|---|---|---|---|---|---|---|
| for_numbers/simple_split_sort.c:68-69 | `lista_dir` gets `n1` cells and `lista_esq` gets `n2`, but `lista_esq` receives the `n1` cells of the left run | `splitsort(random_lista, 0, 49)` in `main` calls `merge(lista, 0, 12, 24)`, which copies 13 cells into a 12-cell buffer; in general every odd-length merged range overflows by one | the left buffer has `n1` cells and the right `n2`, as in the other three copies | not executed | SimpleSplitSort.RandomTestOverflows | TwoWayMerge.Merge |
