# Classic algorithms and N-Queens, modelled in Dafny

This project models two groups of small, sequential C++ algorithms and proves
what they compute.

**N-Queens** (`src/n_queens.cpp`):
- `promising` is the column and diagonal conflict test.
- `check` is the duplicate-column test.
- `n_queens` is the backtracking enumeration of all placements. Each placement
  it prints becomes an entry of a returned list.
- `n_queens_estimate` is Knuth's single random descent through the
  backtracking tree. The random pick is replaced by an oracle argument.

**Utility algorithms** (`src/algo.cpp`):
- three palindrome tests;
- trial-division primality and the sieve-based prime count;
- Prim's spanning tree on an adjacency matrix;
- breadth-first, iterative depth-first and recursive depth-first traversal;
- topological sort;
- matrix rotation and the row/column swap and reverse operations;
- selection, bubble and merge sort;
- whitespace splitting.

Vectors, strings and matrices are immutable sequence values. An in-place
operation becomes a method that returns the new contents. The global
placement buffer of the N-Queens program becomes a sequence threaded through
the search, indexed from 1, with slot 0 unused. The estimator's probe write
`x.at(i) = j` before each `promising(i, j)` (src/n_queens.cpp:118) is kept in
`QueensEstimate.ScanLevel`; it cannot change the answer, because `promising`
reads only rows below `i` (`Queens.PromisingReadsEarlierRows`). An exception the source can
raise (`std::out_of_range` from `at()`, `std::length_error` from `resize`) is
a `Failure` of the `Result` type in `wrappers.dfy`. `isspace` and `toupper`
are their ASCII ("C" locale) versions in `chars.dfy`.

Every operation is paired with a reference definition or an inverse:
- the enumeration with the predicate "is an N-Queens solution";
- the estimator with the closed-form sum of products of promising counts;
- `isPrime` with the definition of a prime, and `countPrimes` with the count
  of primes up to `n`;
- the traversals with reachability;
- `primMst` with spanning trees of the usable edges;
- the sorts with "ascending and a permutation";
- each matrix operation with its index mapping and with itself (applying it
  twice restores the matrix; four rotations of a square restore it);
- `splitStringLoop` with re-joining the pieces at the whitespace.

The concrete expectations of the gtest file `src/main.cpp` are proved as
example lemmas and methods, one per test or group of tests; the `...Examples`
modules hold most of them. The `splitStringStream` test (src/main.cpp:278-295)
is the exception, as that function is left out.

Modules and files:
- `seqs.dfy`, `graph.dfy`, `chars.dfy`, `wrappers.dfy`: shared vocabulary.
- `queens.dfy`, `queens_estimate.dfy`: N-Queens.
- `palindrome.dfy`, `palindrome_examples.dfy`, `primes.dfy`,
  `primes_examples.dfy`: strings and primes.
- `prim.dfy`, `prim_proofs.dfy`, `prim_examples.dfy`: Prim's spanning tree.
- `traversal.dfy`: `bfs` and `dfs`.
- `depth_first.dfy`, `depth_first_proofs.dfy`, `depth_first_examples.dfy`:
  `rdfs` and `topologicalSort`.
- `matrix.dfy`, `matrix_examples.dfy`: the matrix operations.
- `sorting.dfy`, `merge_sort.dfy`, `sorting_examples.dfy`: the sorts.
- `split.dfy`, `split_examples.dfy`: `splitStringLoop`.

## Model

| member | source | states |
|---|---|---|
| Queens.Promising | src/n_queens.cpp:25-32 | true exactly when no queen in rows `1..k-1` shares column `i` or a diagonal with the square (row `k`, column `i`) |
| Queens.PromisingReadsEarlierRows | src/n_queens.cpp:25-32 | the answer depends only on rows `1..k-1` of the buffer: whatever rows `k` and beyond hold cannot change it |
| Queens.PromisingMirror | src/n_queens.cpp:25-32 | the test is symmetric under reflecting the board: column `i` is promising exactly when column `n+1-i` is promising on the mirrored board |
| Queens.Check | src/n_queens.cpp:40-50 | true exactly when no value occurs twice in the buffer |
| Queens.NQueens | src/n_queens.cpp:62-92 | the call fails (the `resize` throws) exactly when `n < -1`; for `n` of -1 or 0 nothing is reported |
| Queens.NQueensReportsExactlyTheSolutions | src/n_queens.cpp:52-92 | for `n >= 1` a placement is reported exactly when it is an `n`-queens solution (columns in `1..n`, no two queens attacking): sound and complete |
| Queens.NQueensOrdered | src/n_queens.cpp:73-91 | the reports are in strictly increasing lexicographic order, so none is repeated |
| Queens.ReportsPassCheck | src/n_queens.cpp:76-80 | every reported placement, together with the unused slot 0, has distinct entries, so `check` never fails on a report |
| Queens.SearchIgnoresStaleRows | src/n_queens.cpp:71-91 | the reports from depth `k` depend only on rows `1..k-1` of the buffer, so values left behind by backtracking are harmless |
| Queens.OneQueen | src/n_queens.cpp:62-92 | one queen has the single solution `[1]` |
| Queens.NoQueensForTwoOrThree | src/n_queens.cpp:62-92 | boards of size 2 and 3 give no reports |
| Queens.FourQueensSolutions | src/n_queens.cpp:25-32 | the only 4-queen solutions are `[2,4,1,3]` and `[3,1,4,2]` |
| Queens.FourQueens | src/n_queens.cpp:62-92 | four queens report exactly `[2,4,1,3]` and then `[3,1,4,2]` |
| QueensEstimate.ScanLevel | src/n_queens.cpp:116-123 | the promising columns of a level are collected in ascending order, and rows above the level are unchanged |
| QueensEstimate.NQueensEstimate | src/n_queens.cpp:102-134 | fails exactly when `n < -1`; otherwise each level's count is its number of promising columns, each committed column is the oracle's pick among them, the descent stops at level `n` or at the first zero count, and the result is `1 + n` times the sum over visited levels of the product of the counts above |
| QueensEstimate.DescentStaysLegal | src/n_queens.cpp:116-130 | the sampled path is always a legal partial placement (no two queens attack) |
| QueensEstimate.FullDescentIsReported | src/n_queens.cpp:110-131 | a descent that reaches level `n` is an `n`-queens solution, and one that `n_queens` reports |
| QueensEstimate.EstimateAtLeastLevels | src/n_queens.cpp:103-113 | for `n >= 0` the estimate is at least `1 + n` times the number of levels visited, so at least 1 |
| QueensEstimate.DescentDetermined | src/n_queens.cpp:110-131 | once the random draws are fixed, the counts and the path are unique |
| QueensEstimate.GoesOnIff | src/n_queens.cpp:110-124 | the descent goes past level `m` exactly when `m != n` and level `m+1` has a promising column |
| Palindrome.StlIsPalindrome | src/algo.cpp:40-52 | true exactly when the string, with whitespace removed and letters upper-cased, reads the same both ways |
| Palindrome.StlIgnoresSpace | src/algo.cpp:40-52 | inserting a whitespace character anywhere never changes the answer |
| Palindrome.StlIgnoresCase | src/algo.cpp:40-52 | upper-casing any one character never changes the answer |
| Palindrome.IsPalindromeSound | src/algo.cpp:54-76 | whenever `isPalindrome` returns without throwing, it agrees with `STLisPalindrome` |
| Palindrome.IsPalindromeWithoutSpaces | src/algo.cpp:54-76 | on a string without whitespace it never throws and agrees with `STLisPalindrome` |
| Palindrome.TrailingSpaceThrows | src/algo.cpp:54-76 | on `"a "`, which is a palindrome, it throws `std::out_of_range` |
| Palindrome.AllBlanksThrow | src/algo.cpp:54-76 | a string of two blanks makes it throw |
| Palindrome.CheckedIsPalindrome | src/algo.cpp:54-76 | with every skip bounded by the other index, the two-index scan never leaves the string and always agrees with `STLisPalindrome` |
| Palindrome.RisPalindrome | src/algo.cpp:82-96 | true exactly when every character equals its mirror image up to case; whitespace counts as a character |
| Palindrome.RisAgreesWithoutSpaces | src/algo.cpp:82-96 | on a string without whitespace it agrees with `STLisPalindrome` |
| Palindrome.RisSeesSpaces | src/algo.cpp:82-96 | `"ab a"` is a palindrome for `STLisPalindrome` but not for `risPalindrome` |
| PalindromeExamples.IsPalindromeSamples | src/main.cpp:77-86 | `isPalindrome` accepts `"racecar"`, `"A man a plan a canal Panama"`, `"No lemon no melon"`, `"a"` and `""`, and rejects `"hello"`, `"world"` and `"12345"`, without throwing |
| PalindromeExamples.RisSamples | src/main.cpp:89-95 | `risPalindrome` accepts `"level"`, `"Able was I ere I saw Elba"`, `"A"` and `""`, and rejects `"world"` |
| PalindromeExamples.StlSamples | src/main.cpp:98-104 | `STLisPalindrome` accepts `"deified"`, both spacings of `"A man a plan a canal Panama"` and `"12321"`, and rejects `"abcd"` |
| Primes.IsPrime | src/algo.cpp:587-604 | true exactly when `n` is prime, which means false for `n <= 1` |
| Primes.CrossOut | src/algo.cpp:111-113 | the inner sieve loop clears exactly the multiples of `i` from `i*i` on and leaves every other flag alone |
| Primes.SievedIsPrime | src/algo.cpp:106-115 | for `m < i*i`, surviving all crossings-out below `i` is the same as being prime |
| Primes.CountPrimes | src/algo.cpp:100-122 | the result is the number of primes in `2..n`, and 0 when `n < 2` |
| Primes.PrimesUpToTen | src/main.cpp:107-114 | there are four primes up to ten |
| PrimesExamples.PrimesUpToHundred | src/main.cpp:108-113 | there are eight primes up to twenty and twenty-five up to a hundred |
| PrimesExamples.CountSamples | src/main.cpp:107-114 | `countPrimes` returns 4, 8, 0, 0 and 25 for 10, 20, 1, 0 and 100 |
| PrimProofs.PickLeast | src/algo.cpp:139-145 | while a vertex is unselected, the inner search picks the first unselected vertex of least key |
| PrimProofs.RelaxPointwise | src/algo.cpp:155-160 | after the update loop, a vertex's key and parent change exactly when it is unselected and has a nonzero edge from `v` lighter than its key, and then become that weight and `v` |
| PrimProofs.StuckUnreached | src/algo.cpp:147-151 | when the least key of the unselected vertices is `INF`, that vertex is unreachable from vertex 0 along usable edges, so the graph is not connected |
| PrimProofs.GrowSpans | src/algo.cpp:137-162 | from any state satisfying the loop invariant, the loop completes exactly when the graph is connected, and then the parents form a spanning tree whose weight is the accumulated cost |
| PrimProofs.PrimMstSpans | src/algo.cpp:126-163 | `primMst` returns the weight of a spanning tree (rooted at 0) of the usable edges exactly when every vertex is reachable from 0, and returns -1 otherwise |
| PrimExamples.SquareMst | src/main.cpp:116-125 | the four-vertex example costs 4 |
| Traversal.BfsSound | src/algo.cpp:216-237 | `bfs` starts at the root, repeats no vertex, and visits exactly the vertices reachable from the root |
| Traversal.DfsSound | src/algo.cpp:239-262 | `dfs` starts at the root, repeats no vertex, and visits exactly the vertices reachable from the root along edges that do not enter vertex 0 |
| Traversal.DfsSkipsZero | src/algo.cpp:254-259 | vertex 0 is visited exactly when it is the root, because the neighbour loop stops before index 0 |
| Traversal.BfsSample | src/main.cpp:138-152 | the five-vertex example is visited as `0, 1, 2, 3, 4` |
| Traversal.DfsSample | src/main.cpp:154-168 | the same graph is visited depth-first as `0, 1, 3, 2, 4` |
| DepthFirstProofs.RdfsSound | src/algo.cpp:265-283 | `rdfs` ends with the root, repeats no vertex, and lists exactly the vertices reachable from the root |
| DepthFirstProofs.RdfsPostOrder | src/algo.cpp:273-283 | on an acyclic graph every successor of a listed vertex is listed, and listed before it |
| DepthFirstProofs.TopologicalSortPermutes | src/algo.cpp:352-363 | `topologicalSort` lists every vertex exactly once |
| DepthFirstProofs.TopologicalSortOrders | src/algo.cpp:348-363 | on an acyclic graph, for every edge `u -> v`, `u` comes before `v` |
| DepthFirstExamples.SampleRdfs | src/main.cpp:170-185 | the example graph gives the post-order `3, 1, 4, 2, 0` |
| Matrix.RotateMatrixClockwise | src/algo.cpp:366-385 | an `N x M` matrix becomes `M x N` with `out[j][N-1-i] == mat[i][j]` |
| Matrix.RotateFourTimes | src/algo.cpp:366-385 | rotating a square matrix four times gives it back |
| Matrix.RotateDigits | src/main.cpp:198-212 | the 3 x 3 digit matrix rotates to `741 / 852 / 963` |
| Matrix.SwapMatrixRow | src/algo.cpp:435-446 | row `r2` becomes the first `M` entries of row `r1`, and row `r1` takes row `r2`'s first `M` entries while keeping its own tail (`M` is the width of row 0); every other row is unchanged |
| Matrix.SwapRowsTwice | src/algo.cpp:435-446 | on a rectangular matrix the operation swaps the two rows, and doing it twice restores the matrix |
| Matrix.SwapMatrixColumn | src/algo.cpp:448-461 | columns `c1` and `c2` trade places in every row, and every other cell is unchanged |
| Matrix.SwapColumnsTwice | src/algo.cpp:448-461 | swapping the same columns twice restores the matrix |
| Matrix.ReverseMatrixRow | src/algo.cpp:463-472 | the named row becomes its first `M` entries reversed, and every other row is unchanged |
| Matrix.ReverseRowTwice | src/algo.cpp:463-472 | on a rectangular matrix, reversing the same row twice restores the matrix |
| Matrix.ReverseMatrixColumn | src/algo.cpp:474-485 | the named column is read bottom-up, and every other cell is unchanged |
| Matrix.ReverseColumnTwice | src/algo.cpp:474-485 | reversing the same column twice restores the matrix |
| MatrixExamples.SwapRowSample | src/main.cpp:297-307 | swapping rows 0 and 1 of the 3 x 3 test matrix gives `{4,5,6} / {1,2,3} / {7,8,9}` |
| MatrixExamples.SwapColumnSample | src/main.cpp:309-319 | swapping columns 0 and 2 gives `{3,2,1} / {6,5,4} / {9,8,7}` |
| MatrixExamples.ReverseRowSample | src/main.cpp:321-330 | reversing row 1 gives `{1,2,3} / {6,5,4} / {7,8,9}` |
| MatrixExamples.ReverseColumnSample | src/main.cpp:332-343 | reversing column 1 gives `{1,8,3} / {4,5,6} / {7,2,9}`, so the column reads 8, 5, 2 |
| Sorting.Largest | src/algo.cpp:394-400 | the inner loop finds the first position of the largest value in `[0, i]` |
| Sorting.SelectionSort | src/algo.cpp:387-404 | false with no change on an empty vector; otherwise true, and the result is ascending and a permutation of the input |
| Sorting.BubblePass | src/algo.cpp:496-503 | one pass keeps the values, moves the largest value of the unsorted prefix to its end, and leaves everything sorted when it swaps nothing |
| Sorting.BubbleSort | src/algo.cpp:487-507 | false with no change on an empty vector; otherwise true, and the result is ascending and a permutation of the input |
| MergeSort.MergeLoop | src/algo.cpp:562-569 | the first merge loop fills the temporary with the values consumed from both runs, in ascending order when the runs are, until one run is used up |
| MergeSort.DrainFirst | src/algo.cpp:571-574 | copying the rest of the first run keeps the temporary a sorted record of what was consumed |
| MergeSort.DrainSecond | src/algo.cpp:576-579 | copying the rest of the second run consumes both runs completely |
| MergeSort.Merge | src/algo.cpp:553-585 | cells outside `[first, last]` are unchanged, the range keeps its values, and if both runs were sorted the range ends up sorted |
| MergeSort.MergeSortHelper | src/algo.cpp:527-543 | sorts `[first, last]` as a permutation of its values, changes nothing outside it, and returns true exactly when the range has more than one cell |
| MergeSort.MergeSort | src/algo.cpp:509-516 | the result is ascending and a permutation of the input; the flag is true exactly when there are at least two values, and an empty vector is unchanged |
| SortingExamples.SelectionSample | src/main.cpp:214-218 | `{64, 25, 12, 22, 11}` sorts to `{11, 12, 22, 25, 64}` with result true |
| SortingExamples.BubbleSample | src/main.cpp:229-233 | `{64, 34, 25, 12, 22, 11, 90}` sorts to `{11, 12, 22, 25, 34, 64, 90}` with result true |
| SortingExamples.MergeSample | src/main.cpp:244-248 | `{38, 27, 43, 3, 9, 82, 10}` sorts to `{3, 9, 10, 27, 38, 43, 82}` |
| SortingExamples.SingleSample | src/main.cpp:214-257 | a one-value vector is left as it is by all three sorts; selection and bubble sort return true and merge sort returns false |
| Split.SplitStringLoop | src/algo.cpp:406-422 | there is one piece more than there are whitespace characters, no piece contains whitespace, and the pieces joined with the string's whitespace characters in order give the string back |
| Split.JoinUnique | src/algo.cpp:406-422 | whitespace-free pieces are determined by the string they join into, so the splitting contract has only one possible result |
| Split.JoinSpaces | src/algo.cpp:406-422 | the whitespace of a joined string is exactly its separators, so splitting a join gives the pieces back |
| SplitExamples.SentenceSample | src/main.cpp:259-265 | `"A string that needs to be split"` splits into its seven words |
| SplitExamples.WordSample | src/main.cpp:267-269 | `"dontsplit"` stays one piece |
| SplitExamples.MixedSample | src/main.cpp:271-275 | newline, tab and space all split: four pieces |

## Left out

- The interactive menu of `src/n_queens.cpp` (`main`), with its `stoi` parsing, `sleep_for` and `exit`, is console I/O and is not modelled.
- `estimate` (src/n_queens.cpp:148-158) averages in `double`, truncates to `int` and prints. Floating point and I/O are not modelled.
- The `std::random_device` and `mt19937` draw in `n_queens_estimate` is an oracle `choices`. Level `l` takes index `choices[l-1] % m` among the `m` promising columns. Every draw the source can make is some oracle's draw.
- Printing in `n_queens` (src/n_queens.cpp:64-67, 79-86) becomes the list of reported placements. The "Algorithm failed." message is covered by `Queens.ReportsPassCheck`, which shows it is never printed.
- The `"Duplicate value found."` message `check` prints (src/n_queens.cpp:44) is console output and is not modelled; `Queens.Check` returns only the answer.
- `int` overflow is not modelled; integers are unbounded. This covers `mprod` and `num_nodes` in the estimator, `n + 1` in `countPrimes` and `resize`, `i * i` in `isPrime`, and `cost` in `primMst`.
- `rdfsTimed` and `rdfsTimedHelper` (src/algo.cpp:324-346) are not modelled. They write into empty vectors, and the helper compares where it means to assign.
- `swapInt` (src/algo.cpp:606-611) takes its arguments by value and has no effect.
- `splitStringStream` (src/algo.cpp:424-433) is a wrapper over `std::stringstream`.
- The commented-out `kruskalMst` and `shortestPath`, the root `main.cpp` (which does not compile), the gtest timing listener and `include/algo.hpp` are not part of this model.
- Locale-dependent `isspace` and `toupper` are modelled as their ASCII versions.
- `std::reverse`, `std::remove_if` and `std::swap` are modelled by their effect on the sequence, not by their iterator algorithms.
- Calls with out-of-range indices are excluded by preconditions, because `operator[]` gives undefined behaviour there, not an exception. This covers a `root` outside the matrix (`bfs`, `dfs`, `rdfs`), an empty matrix (`primMst`, `rotateMatrixClockwise`), and a row or column index outside the matrix. The same holds for rows shorter than the matrix width, because the source reads `mat[0].size()` or `adj.size()` entries of every row.
- `merge` and `mergeSortHelper` take a `size` argument that only sizes the temporary vector. The temporary is an appended sequence, and the copy-back is a splice into `[first, last]`.
- `primMst` keeps `selected` flags; the model keeps the order of selection and treats membership in it as the flag.
- PrimProofs.PrimMstSpans: proves that the result is the weight of a spanning tree but not that the tree is of minimum weight. The matrix is read as directed (`adj[v][to]`), so on asymmetric weights the greedy tree need not be minimal, and a minimality proof (the cut property) is a separate development this model does not take on. With negative weights the answer -1 is also ambiguous, because it can be a real cost.
- A weight of `INF` or more never lowers a key, so such an edge counts as absent in the reachability statements about `primMst`.

## Findings

| source | as written | input that shows it | evidently intended | confidence | as-written member | corrected member |
|---|---|---|---|---|---|---|
| src/algo.cpp:54-76 | the whitespace skips run `s.at(i)` and `s.at(j)` without bounding `i` by `j`, and `--j` on a `size_t` wraps below zero, so a string whose scan runs into whitespace at an end reads past it and throws `std::out_of_range` | `"a "` (also `"  "`) | the same answer as `STLisPalindrome`: `"a "` is a palindrome once whitespace is ignored | not executed | Palindrome.TrailingSpaceThrows | Palindrome.CheckedIsPalindrome |
