# Verified models of CADO-NFS

A Dafny model of the algorithmic core of CADO-NFS, with proofs. Five parts of the repository are covered, each at the
level of bits, index sets or unbounded integers.

| part | modules |
|---|---|
| elimination over GF(2) (`linalg/gauss.c`) | `Gf2`, `Elimination`, `Gauss` |
| multiplication over GF(2)[x] (`gf2x/toom.c`, `gf2x/gf2x.c`, `gf2x/fft.c`) | `Gf2Poly`, `GfWords`, `ToomSpace`, `Basecase`, `Karatsuba`, `GfMul`, `FftRing`, `FftSums`, `Dft`, `TritReversal`, `Fft`, `FftMultiply`, `FftProduct` |
| merge, replay and purge (`filter/`) | `SpanningTree`, `EdgeHeap`, `Mst`, `SparseRows`, `MergeIndex`, `Dclist`, `History`, `Replay`, `SmallMatrix`, `MergeTree`, `TreeHistory`, `FilterMatrix`, `Merge`, `StarTree`, `TreeMerge`, `LostRows`, `MergeColumn`, `RunTrace`, `MergeRun`, `LongLines`, `Components`, `Purge` |
| Kleinjung's polynomials (`polyselect/polyselect2.c`, `polyselect.c`) | `Congruence`, `Collisions`, `Kleinjung`, `PolySearch` |
| transformations of polynomial pairs (`polyselect/auxiliary.c`, `twoquadratics.c`) | `IntPoly`, `Residues`, `ModularSquareRoot`, `TwoQuadratics`, `Optimize` |

`dafny verify dfyconfig.toml` checks everything.

## How the model is built

* **Vectors and polynomials over GF(2)** are sets: a row is the set of its non-zero columns, a polynomial the set of
  its exponents, and addition is symmetric difference (`Gf2.Xor`). Machine words of `gf2x/` are sets of exponents below
  64, and memory is one array of words with offsets for the operands, the result and the scratch space, so that the
  overlapping writes of Karatsuba are visible.
* **Elimination** keeps two ghost objects per row: the combination of original rows it stands for, and how the already
  processed bits of the stored row encode that combination (`Elimination.Pending`, `Elimination.PivotSum`).
* **The merge phase** is a class with the fields of the source: rows, column weights, row lists per column, lists of
  columns by weight, and the text of the history. A ghost field `cells` says which cells the index counts; between two
  public steps it is the set of live rows. The ghost field `lines` holds the history as numbers.
* **The history file** is a string. It is read as `fgets` with a buffer of 2048 characters reads it, so that a longer
  line ends the reading; lines with costs (`BWCOST`) may stand anywhere between the lines of additions.
* **GMP integers** are `int`; `mpz_fdiv_q` is `Kleinjung.FloorDiv`, also for negative divisors. C's truncating division in
  `purge.c` is written out (`Purge.HalfTowardsZero`).
* **A whole run** of the merge phase (`MergeRun.MergeOneByOne`) takes the costs, and with them the rows to delete after each
  round and the round in which the run stops, from an arbitrary function of the round number. Deleted rows are tracked by a
  ghost sequence `lost` with one row for each of them, and the steps by a ghost `RunTrace.Run` with all states between them.
* **Comparisons of floating point norms** are an arbitrary oracle, as is the order in which `qsort` puts the components of
  `purge.c`. Root finding modulo a prime is an input that lists the roots.

## Main results

1. Prim's loop over a heap with stale edges builds a spanning tree of least cost.
2. `kernel` returns a basis of the left null space, read back from the bits that elimination leaves in the matrix;
   `spanned_basis` returns an invertible transform whose first rows give a basis of the row space.
3. The radix-3 transform modulo x^(2N)+x^N+1 leaves its values in base-3 reversed order, the transform at the inverse
   root undoes it without a division, and chunks, transforms, pointwise products and the inverse give the product of
   two polynomials.
4. In-place Karatsuba computes the product for all sizes and touches nothing but its result and its scratch words; its
   scratch need is at most `gf2x_toomspace`; the Euclid-like loop of `gf2x_mul_r` gives the product of operands of any sizes.
5. Every step of the merge phase keeps the index equal to a recount. A merge for column j removes the column and leaves
   exactly the vectors of the row span that are zero at j, for the star and for the tree; a run of merges leaves those that
   avoid all merged columns. `mergeOneByOne` as a whole ends, whatever rows are deleted between the merges, and its steps are
   recorded: which columns are merged along which tree or star, which rows are deleted, and why it stops. Every merged column
   costs exactly one row, and every deleted row at most one dimension of what is left of the span. The pointers of the lists
   by weight refine sequences of columns. Replay reads the history up to the first line that is too long and then
   has the rows as they were at that time, and so has the small matrix; if no line is too long, which can be told from the
   number of rows and the merge level before the run, these are the rows that are still live.
6. `remove_singletons` ends with the greatest set of relations without singletons that avoids the relations deleted for
   their cost, whatever the order of deletions. These are one of each chosen component of "share an ideal of weight 2",
   found by a recursive search that computes the other relation from a sum of row numbers, in the order that sorting gives
   and until half of the excess is gone, and the rest of a component cannot survive.
7. `newAlgo` finds exactly the mtilde near m0 for which l^2 divides mtilde^d - Ntilde, with l = p1 p2 q: roots are lifted
   uniquely, open addressing calls `match` for exactly the pairs of an all-pairs comparison, and for every collision the
   divisions of `match` are exact and its coefficients are the only expansion of N that is near the quotients; they are
   small. `Lemma21` expands N with small coefficients, which are determined as well.
8. Tonelli-Shanks returns a square root (with Fermat's theorem, the bound on roots of polynomials and the existence of
   non-residues proved on the way); lattice reduction of two vectors terminates although one of its steps does not shrink
   anything, and no vector of the lattice is shorter than its result; the two quadratics belong to the root nearest to the
   square root of N, and two calls to opposite roots; the search of `optimize_aux` always knows which translation and rotation
   it has performed, with steps that double after a success and are halved after a failure.

## Where documentation and code differ

* The comment at `gf2x/toom.c:139` bounds the scratch space by 5n+17, but `gf2x_toomspace(8)` is 59.
  `ToomSpace.CommentedBound` gives the 38 sizes for which the comment is wrong. The model uses the function.
* The `return` of case 0 in `gf2x/gf2x.c:40` is inside a comment, so that the case runs into case 1 and multiplies one
  word. `Basecase.Size` models this; it is harmless because only zero words are stripped before.
* For a negative `keep`, the target of `filter/purge.c:534` is rounded towards zero, so that an excess of `keep` + 1 is
  left as it is. `Purge.Settled` is the exact condition under which nothing is deleted; `Purge.NothingToDelete` says when
  rounding is the reason, and `Purge.RoundingLeaves` is an example.
* The comment at `filter/purge.c:537-538` says that one pass removes the rest of a component. `Purge.OnePassLeaves` is a case
  in which it does not; the passes are repeated, and then `Purge.ComponentGoes` applies.
* `filter/replay.c` reads lines of at most 2047 characters and stops at a longer one, but a merge of up to 256 rows can
  write longer lines. All lines are read exactly if none is longer (`MergeColumn.ReplayMatches`). `Replay.ShortHistory`
  gives a condition that can be checked before the run: fewer than 10^D rows, merges of at most m rows and
  1 + m (D + 1) < 2048. `MergeRun.MergeAll` shows that it is enough for every run with `maxlevel` m, deletions included.
  A merge along a star of n rows of D digits writes a line of n (D + 1) characters (`LongLines.StarMergeLine`);
  `LongLines.LongStarRun` is a run in which one such line of 2304 characters keeps replay from reading anything.

## Model

| member | source | states |
|---|---|---|
| `EdgeHeap.HeapPops` | filter/mst.c:149-159 | taking the first entry and moving the last one to the top leaves a heap with a hole at the top |
| `EdgeHeap.RootIsSmallest` | filter/mst.c:87-104 | the first entry of a heap costs no more than any other |
| `Mst.EdgeQueue.UpQueue` | filter/mst.c:87-104 | the last entry rises until the heap order holds; the entries stay the same multiset |
| `Mst.EdgeQueue.AddEdge` | filter/mst.c:106-116 | the queue gains exactly the given edge |
| `Mst.EdgeQueue.DownQueue` | filter/mst.c:119-146 | the first entry sinks until the heap order holds; the entries stay the same multiset |
| `Mst.EdgeQueue.PopQueue` | filter/mst.c:149-159 | removes an edge that no other edge in the queue undercuts |
| `Mst.AddAllEdges` | filter/mst.c:164-173 | all edges from a newly reached vertex to unreached ones are in the queue |
| `SpanningTree.LowerBoundStep` | filter/mst.c:176-239 | the exchange argument: adding a cheapest crossing edge keeps the partial cost at or below every spanning tree |
| `Mst.PopStep` | filter/mst.c:207-237 | an edge that reaches a new vertex extends the tree and its cost optimally, a stale one is dropped |
| `Mst.MinimalSpanningTreeWithPrim` | filter/mst.c:176-239 | `father` is a tree rooted at 0 with matching sons and heights, `w` is its cost, and no spanning tree is cheaper |
| `Elimination.ColumnWithPivot` | linalg/gauss.c:355-440 | one column with a pivot keeps the meaning of all stored rows: processed bits record the pivots added, other bits are the reduced row |
| `Elimination.Outcome.UnusedIsNull` | linalg/gauss.c:500-530 | the combination recorded in an unused row sums to zero |
| `Elimination.Outcome.PivotsIndependent` | linalg/gauss.c:296-472 | the rows used as pivots are independent |
| `Elimination.Outcome.UsedIsBasis` | linalg/gauss.c:296-472 | the rows used as pivots are a basis of the row space of the original matrix |
| `Elimination.Outcome.TransformIndependent` | linalg/gauss.c:566-603 | the recorded combinations are independent |
| `Elimination.Outcome.TransformSpans` | linalg/gauss.c:566-603 | the recorded combinations generate every unit vector |
| `Gauss.GetPivot` | linalg/gauss.c:741-748 | the first row with the bit set, or -1 if there is none |
| `Gauss.AddRows` | linalg/gauss.c:654-665 | adds the pivot row and marks the pivot bit |
| `Gauss.Add2Rows` | linalg/gauss.c:673-690 | does to two rows what `AddRows` does to one |
| `Gauss.SimpleAddrows` | linalg/gauss.c:245-254 | adds row s to row d |
| `Gauss.Sweep` | linalg/gauss.c:369-440 | clearing a column two rows at a time equals the one-row version, in the matrix and in the transform |
| `Gauss.GaussianElimination` | linalg/gauss.c:296-472 | ends with the encoding from which kernel and transform can be read |
| `Gauss.KernelSound` | linalg/gauss.c:475-548 | every vector read from an unused row annihilates the original matrix |
| `Gauss.KernelComplete` | linalg/gauss.c:475-548 | every left null vector is a combination of them |
| `Gauss.Kernel` | linalg/gauss.c:475-548 | the vectors are a basis of the left null space, and the result is the number of rows minus the rank |
| `Gauss.SpannedBasis` | linalg/gauss.c:566-603 | lmat is invertible, the first r rows of lmat mat are a basis of the row space and the others are zero |
| `Gf2.RankUnique` | linalg/gauss.c:475-548 | all bases of a row space have the same size, so that the rank is well defined |
| `FftRing.LshiftIsXPow` | gf2x/fft.c:282-432 | the three block layouts are multiplication by x^k |
| `FftRing.XPowPeriod` | gf2x/fft.c:282-432 | x^(3N) = 1 |
| `FftRing.MulModIsRingMul` | gf2x/fft.c:441-486 | folding the product is multiplication modulo x^(2N)+x^N+1 |
| `TritReversal.Bitrev` | gf2x/fft.c:492-501 | the entries become the base-3 reversals of their positions, all others stay |
| `TritReversal.RevInvolution` | gf2x/fft.c:492-501 | reversing base-3 digits twice gives the number back |
| `Dft.EvalThirds` | gf2x/fft.c:514-551 | decimation: a value of the transform from three values of the transforms of the thirds |
| `Dft.Orthogonality` | gf2x/fft.c:932-957 | sums of powers of the root vanish unless the exponents agree, and then add up to 1 because K is odd |
| `Dft.InverseTransform` | gf2x/fft.c:932-957 | the transform at the inverse root undoes the transform, with no scaling |
| `Dft.ConvolutionTheorem` | gf2x/fft.c:879-957 | the inverse transform of pointwise products is the cyclic product |
| `Fft.Combine` | gf2x/fft.c:532-547 | the nine shifts and additions of a butterfly compute the three points |
| `Fft.PointIsEval` | gf2x/fft.c:526-547 | a butterfly of three sub-transforms is the transform at the frequency it stands for |
| `Fft.Fft` | gf2x/fft.c:514-551 | the strided cells hold the transform in base-3 reversed order, nothing else changes |
| `FftMultiply.Compose` | gf2x/fft.c:879-896 | elementwise ring products, also when the arrays are the same |
| `FftMultiply.Ift` | gf2x/fft.c:932-951 | from reversed order to the transform at exponent 3N - Mp, in natural order |
| `FftMultiply.CyclicMultiply` | gf2x/fft.c:815-957 | transforms, products and inverse transform give the cyclic product |
| `FftProduct.ChunkProduct` | gf2x/fft.c:553-645 | the cyclic product of the chunks, put together, is the product if it fits in K M bits |
| `FftProduct.MulFft` | gf2x/fft.c:553-645 | decomposing, multiplying cyclically and recomposing gives the product of the polynomials |
| `ToomSpace.ComputeSpace` | gf2x/toom.c:113-126 | the loop computes the recursively defined space |
| `ToomSpace.SpaceEnough` | gf2x/toom.c:185-219 | what the recursion of Karatsuba needs is at most what gf2x_toomspace reserves |
| `ToomSpace.SpaceMonotone` | gf2x/toom.c:113-126 | the space grows with the size |
| `ToomSpace.CommentedBound` | gf2x/toom.c:138-140 | the space is above the 5n+17 of the comment exactly for 38 sizes from the threshold on |
| `Basecase.AddMulRow` | gf2x/gf2x.c:57-62 | a row of the schoolbook product with its carry word, added to or replacing the destination |
| `Basecase.MulBasecase` | gf2x/gf2x.c:32-67 | the full product of small or unequal operands, with size 0 read as 1 |
| `Karatsuba.Identity` | gf2x/toom.c:192-229 | the quarters of the product from three half-size products, one sum entering two of them |
| `Karatsuba.Layout.Correct` | gf2x/toom.c:192-229 | the stages of the method give the product, although the middle product overwrites half of each outer one |
| `Karatsuba.SumHalves` | gf2x/toom.c:207-216 | the sums of halves, also for odd sizes |
| `Karatsuba.FixQuarters` | gf2x/toom.c:220-229 | the two middle quarters are corrected in place |
| `Karatsuba.MulKara` | gf2x/toom.c:165-230 | the result is the product for every n, and only the 2n result words and the scratch words change |
| `GfMul.MulToom` | gf2x/toom.c:143-159 | the same after leading zero words are stripped |
| `GfMul.AddBlocks` | gf2x/gf2x.c:185-191 | all whole blocks of the longer operand times the shorter one are added |
| `GfMul.RoundSpace` | gf2x/gf2x.c:164-188 | the scratch words of every later round stay below the product buffer v |
| `GfMul.MulUnbalanced` | gf2x/gf2x.c:163-206 | terminates with the full product: what is added plus what remains is always the product |
| `GfMul.MulR` | gf2x/gf2x.c:97-214 | the full product of operands of any sizes, with the result possibly on top of an operand |
| `SparseRows.AddRows` | filter/sparse.c:44-111 | the sorted symmetric difference of two sorted rows, of the promised length |
| `SparseRows.WeightSum` | filter/filter_matrix.c:409-439 | the length of the sum of two rows plus the estimate for buried columns, which is the sum of the two estimates or the number of buried columns, whichever is less |
| `MergeIndex.CellRemovedAgrees` | filter/merge_mono.c:166-187 | removing a cell keeps the index equal to a recount and the status of all columns |
| `MergeIndex.CellAddedAgrees` | filter/merge_mono.c:135-163 | so does adding one to a column that is not retired |
| `MergeIndex.ColumnDroppedAgrees` | filter/merge_mono.c:121-131 | a column may stop being followed if it is heavy or in no row |
| `MergeIndex.Recount` | filter/filter_matrix.h:21-44 | a followed column has its exact weight and row list and one cell in the list for its weight; a retired one is in no row |
| `Dclist.InsertAfter` | filter/dclist.c:98-114 | a new cell after the given one, all links mended |
| `Dclist.Remove` | filter/dclist.c:116-133 | the cell is out of the list, all links mended |
| `Dclist.FirstCell` | filter/dclist.c:161-167 | the cell behind the header, or none |
| `Dclist.Length` | filter/dclist.c:83-96 | the number of columns, without the header |
| `Dclist.Lists.AddList` | filter/swar.c:44-61 | one more empty list behind a header, the other lists and A unchanged |
| `Dclist.Lists.FirstOf` | filter/dclist.c:161-167 | the first column of list w, or -1 if it is empty |
| `Dclist.Lists.Insert` | filter/swar.c:182 | on the lists that the cells stand for, an insertion at the front; A[j] is the new cell |
| `Dclist.Lists.RemoveColumn` | filter/swar.c:118-148 | the column leaves its list, whatever its place |
| `Dclist.Lists.Move` | filter/swar.c:161-187 | a removal and an insertion in the list for the new weight |
| `Dclist.Lists.Clear` | filter/swar.c:216-234 | taking cells out without mending the links back ends with a proper empty list |
| `FilterMatrix.ReadWeights` | filter/filter_matrix.c:87-98 | the number of rows that contain each column |
| `FilterMatrix.FillMat` | filter/filter_matrix.c:101-135 | light columns are in the list for their weight, the weights of heavy ones are negative |
| `FilterMatrix.FillRowLists` | filter/filter_matrix.c:190-230 | the row lists of light columns hold the rows that contain them, in increasing order |
| `FilterMatrix.InitialAgrees` | filter/filter_matrix.c:101-135 | the first index agrees with a recount |
| `FilterMatrix.Matrix.DecreaseColWeight` | filter/swar.c:162-187 | the column moves to the list for its weight minus one |
| `FilterMatrix.Matrix.AddCol` | filter/swar.c:190-214 | the column moves to the list for its weight plus one, or only its negative weight changes |
| `FilterMatrix.Matrix.RemoveIFromRj` | filter/filter_matrix.c:305-327 | the first entry for the row becomes -1 |
| `FilterMatrix.Matrix.AddIToRj` | filter/filter_matrix.c:332-361 | the row takes the first free place, or a new one |
| `FilterMatrix.Matrix.RemoveJFromRow` | filter/filter_matrix.c:365-404 | the row loses exactly column j |
| `FilterMatrix.Matrix.RemoveCellAndUpdate` | filter/merge_mono.c:166-187 | the index stays a recount with one cell less |
| `FilterMatrix.Matrix.AddCellAndUpdate` | filter/merge_mono.c:135-163 | the index stays a recount with one cell more |
| `FilterMatrix.Matrix.RemoveRowAndUpdate` | filter/merge_mono.c:239-258 | all cells of a row leave the index |
| `FilterMatrix.Matrix.AddOneRowAndUpdate` | filter/merge_mono.c:261-269 | all cells of a row enter the index |
| `FilterMatrix.Matrix.AddRowsAndUpdate` | filter/merge_mono.c:273-282 | row i1 becomes the sum and the index is a recount again |
| `FilterMatrix.Matrix.RemoveRowDefinitely` | filter/merge_mono.c:312-319 | the row leaves index and matrix, with a line of its own |
| `FilterMatrix.Matrix.DeleteRow` | filter/merge_mono.c:312-319 | just this row goes, with just one line of one number; the matrix stays consistent and its history complete |
| `FilterMatrix.Matrix.DropUselessRow` | filter/merge_mono.c:694-706 | just this row goes, without a line; all other rows stay explained |
| `FilterMatrix.Matrix.RemoveColDefinitely` | filter/merge_mono.c:98-119 | exactly the rows of the column are deleted, each with a line of its own, and both counters go down by their number |
| `FilterMatrix.Matrix.DeleteAllColsFromStack` | filter/merge_mono.c:191-233 | the list becomes empty and exactly the columns of a set J are no longer followed; index and history stay consistent. Singletons (`cwmax` at least 1, so that list 1 is not the list of heavy columns): every row is unchanged or gone with a line of its own, one for each column of J, and the span is the old one without J. Other lists: J is the list, and rows and history are unchanged |
| `FilterMatrix.Matrix.DeleteEmptyColumns` | filter/swar.c:216-234 | all columns of weight 0 are retired |
| `History.ReportLine` | filter/report.c:67-96 | the text of a line |
| `History.ValueOfDigits` | filter/replay.c:441-442 | reading decimal digits gives back the number that was written |
| `History.DoAllAdds` | filter/replay.c:430-470 | reading a line has exactly the effect that the line stands for, including rows that are not destroyed |
| `Replay.FgetsLine` | filter/replay.c:572-580 | a line is read as a whole exactly if it has at most 2047 characters; else what is read has no newline at its end |
| `Replay.DoRecord` | filter/replay.c:581-596 | additions are done, and only the cost that was asked for stops the reading |
| `Replay.BuildNewRows` | filter/replay.c:557-596 | the lines before the first one that stops the reading are replayed on lists of row numbers, and no others |
| `Replay.ShortHistory` | filter/replay.c:472 | with fewer than 10^D rows and merges of at most m rows, all is read if 1 + m (D + 1) < 2048 |
| `Replay.LongLineStops` | filter/replay.c:576-580 | a history that starts with a line that is too long: nothing is read, and a row that this line destroys is still there |
| `History.ReplayMeansMerge` | filter/replay.c:430-470 | a history that explains the matrix, replayed on row numbers, represents every live row |
| `MergeTree.CombinesGone` | filter/merge_mono.c:322-436 | after a combination along a tree no live row contains the column |
| `MergeTree.SingletonMerges` | filter/merge_mono.c:98-119 | deleting the only row with a column is a merge: nothing but the column is lost |
| `MergeTree.MergeSpan` | filter/merge_mono.c:322-436 | the new rows span exactly the vectors of the old span that are zero in the column |
| `TreeHistory.Plan.AddSon` | filter/merge_mono.c:383-395 | one addition of a father to a son, both untouched so far |
| `TreeHistory.Plan.ReplayVertex` | filter/merge_mono.c:360-436 | replaying the lines of a subtree, last one first, adds every father as it was before the merge |
| `Merge.FillRowAddMatrix` | filter/mst.c:241-258 | the symmetric matrix of weights of sums |
| `Merge.BestRow` | filter/merge_mono.c:45-61 | the first row of least total cost |
| `Merge.FindBestIndex` | filter/merge_mono.c:37-62 | the first row for which no other row gives a smaller total weight when it is added to all the others, also for the shortcut with two rows |
| `Merge.TryAllCombinations` | filter/merge_mono.c:322-355 | the merge along the best star reports the line of that star, does what the line says and keeps matrix, index and history consistent |
| `TreeMerge.AddFatherToSonsRec` | filter/merge_mono.c:360-399 | every vertex below u gets its father added, with exact lengths, and the lines are stored in preorder |
| `TreeMerge.RootLinesFit` | filter/merge_mono.c:360-399 | the lines fit in the history array |
| `TreeMerge.ReplayTree` | filter/merge_mono.c:413-436 | replaying the reported lines gives the rows that the recursion made |
| `TreeMerge.MSTWithA` | filter/merge_mono.c:413-436 | the merge along a tree of least cost reports the lines of that tree, does what they say and keeps matrix, index and history consistent |
| `MergeColumn.FindOptimalCombination` | filter/merge_mono.c:450-461 | a star for at most two rows or without useMST and else a tree; both replace rows along a tree, and the rows are what the new lines make of them |
| `MergeColumn.MergeForColumn` | filter/merge_mono.c:493-554 | no live row contains j, the span is the old one with coordinate j zero, one row goes, j is retired, and index and history stay consistent; the new lines are those of the best star or of a cheapest tree on the rows in the row list of j, and the new rows are what they make of the old ones |
| `MergeColumn.MergeM` | filter/merge_mono.c:560-615 | turn by turn the first column of the list is merged and heavy columns leave the lists, until the list is empty or maxdo columns are done; the span keeps exactly the vectors that avoid the set J of merged columns, for one row each |
| `MergeColumn.MergeForColumn2` | filter/merge_mono.c:955-968 | a merge for column j and then the removal of exactly the heavy columns from the lists; nothing but column j is lost |
| `MergeColumn.ReplayMatches` | filter/replay.c:557-596 | the replayed rows represent the matrix after the lines that are read; these are all lines exactly if none stops the reading, and then each live row is the sum of the original rows listed for it |
| `StarTree.StarIsMinimal` | filter/mst.c:176-239 | if the edges from vertex 0 are the cheapest ones at all other vertices, every cheapest tree is a star |
| `LongLines.StarMergeLine` | filter/merge_mono.c:360-436 | if the sums with the first of n rows of D digits are the lightest, the merge writes one line of n (D + 1) characters, at which replay stops exactly if that is at least 2048 |
| `LongLines.LongLineMerges` | filter/merge_mono.c:360-436 | 256 rows of a matrix for which this line has 2304 characters; as a first line it keeps everything from being read |
| `LongLines.LongStarRun` | filter/replay.c:576-580 | from such a matrix through the merge to replay: row 10000000 is gone from the matrix, but replay still has all rows as they were |
| `LostRows.CleanedMerged` | filter/merge_mono.c:815-838 | a row that was deleted before a merge costs at most one dimension after it: the new span and one row that avoids the merged columns give what the merge would have left |
| `LostRows.ThenDeleted` | filter/merge_mono.c:312-319 | one more deleted row is one more lost dimension at most |
| `RunTrace.SuperfluousMeans` | filter/merge_mono.c:815-838 | what a run records of such a call: n rows went, or the excess is at most keep, or all rows of tmp are gone; no more than n, the excess not below keep, and only rows of tmp |
| `RunTrace.InspectMeans` | filter/merge_mono.c:662-708 | and of an inspection: unless the excess is at most keep or 129 rows went, no row longer than rwmax is left |
| `RunTrace.LongMeans` | filter/merge_mono.c:670-692 | in the first loop only rows longer than rwmax go |
| `MergeRun.DeleteSuperfluousRows` | filter/merge_mono.c:815-838 | deletes exactly the live rows of tmp from the last one down to some place, in this order and with a line each; it stops there because n rows went, because the excess is at most keep, or because tmp is done, and not before |
| `MergeRun.IsRowToBeDeleted` | filter/merge_mono.c:645-658 | whether all columns of the row are heavy |
| `MergeRun.DeleteLongRows` | filter/merge_mono.c:670-692 | deletes exactly the rows longer than rwmax before some row, in order and with a line each, until the excess is at most keep, 129 rows went or all rows are done |
| `MergeRun.DropUselessRows` | filter/merge_mono.c:693-705 | drops exactly the rows all of whose columns are heavy, without a line and without counting them in rem_nrows |
| `MergeRun.InspectRowWeight` | filter/merge_mono.c:662-708 | the long rows, and then the useless ones, unless the excess ran out on the way |
| `MergeRun.DeleteRows` | filter/merge_mono.c:1123-1125 | the given deletions are made one after the other, and `lost` grows by the number of rows that go |
| `MergeRun.MinColWeight` | filter/merge_mono.c:631-640 | the least weight with a column in its list, or -1 |
| `MergeRun.DoOneMerge` | filter/merge_mono.c:972-995 | all singletons, all columns of weight 2 turn by turn, or the first column of the list: merges a set K that is not empty, for one row and one column in the counters each |
| `MergeRun.MergeOneByOne` | filter/merge_mono.c:1029-1214 | ends whatever the costs say. The recorded run consists of exactly the rounds for the least weights up to maxlevel, each with its merges, the removal of empty columns and its deletions, and of the deletions at the end; it stops after the first round that says so or when no weight up to maxlevel is left. The columns of J are merged, live rows, J and lost rows add up to the rows at the start, the deletions account for all lost rows, the span together with the lost rows is the old one without J, index and history stay consistent, and no line is longer than maxlevel |
| `MergeRun.MergeAll` | filter/merge.c:222-285 | the same from the rows that are read; the history is read to the end if 1 + maxlevel (D + 1) < 2048 for rows below 10^D |
| `SmallMatrix.InvertRows` | filter/replay.c:735-745 | oldrows lists, for every old row, the numbers of the new rows whose lists contain it, in increasing order |
| `SmallMatrix.Small.AddRel` | filter/replay.c:57-125 | the relation is added to the row, and the weights of the columns are a recount |
| `SmallMatrix.MakeSparse` | filter/replay.c:127-161 | every new row is the sum of the relations of its list |
| `MergeColumn.MakeSmallMatrix` | filter/replay.c:696-766 | for every cost asked for, the small matrix has the rows after the lines that are read, each in a place of its own, on all columns on which the relations and the rows before the merges agree; if nothing stops the reading, these are the live rows |
| `Purge.Relations.HasSingleton` | filter/purge.c:394-403 | whether some ideal of the relation occurs once |
| `Purge.Relations.DeleteRelation` | filter/purge.c:410-423 | the counts of ideals and of present ideals stay exact |
| `Purge.Relations.OnepassSingletonRemoval` | filter/purge.c:548-560 | goes through the relations in order and deletes those with a singleton at that time; no set without singletons is lost, and a pass without deletions leaves no singleton |
| `Components.OtherRow` | filter/purge.c:472 | the sum of the row numbers minus the number of a row is the other row with the same ideal of weight 2 |
| `Purge.Relations.CollectSums` | filter/purge.c:500-512 | the sums for ideals of weight 2, the number of relations and the total weight |
| `Purge.Relations.ComputeConnectedComponent` | filter/purge.c:457-478 | terminates and marks relations connected with the first one, with all that they are linked with; counts them and their weight |
| `Purge.MarksComponent` | filter/purge.c:457-478 | a search from an unmarked relation marks exactly its component |
| `Purge.Relations.FindComponents` | filter/purge.c:514-527 | the list has the first used relation of each component, in order, with the size of the component |
| `Purge.Relations.DeleteFirst` | filter/purge.c:535-543 | deletes the relations of the first components of the list; before each deletion the excess was above the target, and after the last one it is not, or the list is done |
| `Purge.Relations.DeleteHeavierRows` | filter/purge.c:485-546 | D has the relations of the first components in the order that sort gives them, until the excess is at most half of the sum of the old excess and keep, rounded to zero, or every component has lost one; D is empty exactly if the excess is settled |
| `Purge.LargestGo` | filter/purge.c:529-543 | if the components are sorted by size, no component that loses no relation is larger than one that does |
| `Purge.ComponentGoes` | filter/purge.c:537-538 | a set without singletons that lacks one relation lacks its whole component |
| `Purge.OnePassLeaves` | filter/purge.c:548-560 | three relations for which one pass is not enough |
| `Purge.NothingToDelete` | filter/purge.c:534-535 | an excess above keep is left alone exactly if keep is negative and the excess is keep + 1 |
| `Purge.Relations.RemoveSingletons` | filter/purge.c:562-587 | round by round relations are deleted for their cost, if the call is final, and a pass is made, up to the first round that changes nothing; what is left is the greatest set without singletons that avoids the relations deleted for their cost, and in a final call the excess is settled |
| `Purge.GreatestCore` | filter/purge.c:562-587 | the greatest set does not depend on the order of deletions |
| `Collisions.FoundAll` | polyselect/polyselect2.c:443-449 | a probe that meets a free cell has met every entry with the same i |
| `Collisions.Table.Probe` | polyselect/polyselect2.c:435-449 | the probe ends at a free cell and calls match once for each partner |
| `Collisions.Table.Grow` | polyselect/polyselect2.c:460-492 | doubling keeps the entries |
| `Collisions.Table.Add` | polyselect/polyselect2.c:424-453 | one call of match for each entry with equal i and another prime |
| `Collisions.AddEach` | polyselect/polyselect2.c:399-492 | over any insertions and doublings, the calls of an all-pairs comparison |
| `Kleinjung.Hensel` | polyselect/polyselect2.c:586-601 | the lifted number is a root modulo p^2 |
| `Kleinjung.RootsLift` | polyselect/polyselect2.c:574-607 | every root modulo p becomes a shifted root modulo p^2 |
| `Kleinjung.LiftUnique` | polyselect/polyselect2.c:586-601 | a root modulo p has only one lift modulo p^2 |
| `Kleinjung.LiftsAreAll` | polyselect/polyselect2.c:574-607 | the lifts of all roots modulo p are all roots modulo p^2 |
| `Kleinjung.SpecialQ` | polyselect/polyselect2.c:748-769 | both numbers entered in the table are hits for p |
| `Kleinjung.CollisionDivides` | polyselect/polyselect2.c:179-188 | l^2 divides Ntilde - mtilde^d for a collision |
| `Kleinjung.SplitFacts` | polyselect/polyselect2.c:189-232 | m and l are coprime, and l^2 divides N - ad m^d - a m^(d-1) l |
| `Kleinjung.Match` | polyselect/polyselect2.c:179-276 | for every collision, also with negative m, all divisions are exact, mtilde = d ad m + f[d-1] l, m is coprime to l and not 0, and the coefficients expand N in m and l; f[d-2] to f[1] are less than half of l away from the floor of what is left of N divided by m^j, or l/2 below it, and f[d-3] to f[0] are at most (abs(m) + l) (l + 2) / (2 l) |
| `Kleinjung.ExpansionUnique` | polyselect/polyselect2.c:242-265 | the expansion with these properties and the given first two coefficients is the only one |
| `Kleinjung.AllSmall` | polyselect/polyselect2.c:242-265 | coefficients that are near what is left of N are small |
| `Kleinjung.Lemma21` | polyselect/polyselect.c:178-230 | the coefficients expand N in m and p, each of a[d-1] to a[0] is the nearest to what is left of N divided by m^i that leaves a multiple of p, and those up to d-2 are at most (m+p)/2 |
| `Kleinjung.NearestExpansionUnique` | polyselect/polyselect.c:178-230 | with a given leading coefficient this expansion is the only one |
| `PolySearch.FirstTable` | polyselect/polyselect2.c:669-712 | the roots kept are all roots modulo p^2 for all primes that are not skipped, and the entries are all hits from -p^2 to p^2 - 1 |
| `PolySearch.SpecialTable` | polyselect/polyselect2.c:733-795 | the entries for q and rq are all hits from -p^2 to p^2 - 1 |
| `PolySearch.Search` | polyselect/polyselect2.c:424-453 | every collision gives a polynomial pair for N, every call of match meets its requirements, no candidate is missed, and none is found twice if no entry is there twice |
| `PolySearch.PairUnique` | polyselect/polyselect2.c:179-276 | mtilde and l determine the polynomial pair |
| `PolySearch.NewAlgo` | polyselect/polyselect2.c:609-800 | what is found is exactly the mtilde near m0 such that l^2 divides mtilde^d - Ntilde for some l = p1 p2 q, each once (if no prime and no root is given twice) and with its polynomial pair for N, which has the near and small coefficients of match |
| `Residues.Fermat` | polyselect/twoquadratics.c:35-117 | z^(p-1) = 1 modulo p |
| `Residues.RootBound` | polyselect/twoquadratics.c:76-78 | a polynomial has no more roots modulo p than its degree |
| `Residues.NonResidueExists` | polyselect/twoquadratics.c:76-78 | the search for a non-residue ends below p |
| `ModularSquareRoot.FindNonResidue` | polyselect/twoquadratics.c:76-78 | finds the least z from 2 on with z^((p-1)/2) = -1 |
| `ModularSquareRoot.OrderExponent` | polyselect/twoquadratics.c:96-102 | the least i with t^(2^i) = 1, which is below M |
| `ModularSquareRoot.Round` | polyselect/twoquadratics.c:96-115 | a round keeps R^2 = n t, t^(2^(M-1)) = 1 and c^(2^(M-1)) = -1 with a smaller M |
| `ModularSquareRoot.SquareRootMod` | polyselect/twoquadratics.c:35-117 | terminates with a square root of N modulo p, always with the same one of the two |
| `TwoQuadratics.Reduction` | polyselect/twoquadratics.c:134-189 | a reduced by the nearest multiple of b, shorter or as long with a.b turned from negative to positive |
| `TwoQuadratics.LLL` | polyselect/twoquadratics.c:193-211 | terminates, keeps the lattice, and ends with 2 abs(a.b) at most both squared lengths |
| `TwoQuadratics.OrthogonalLattice` | polyselect/twoquadratics.c:252-269 | the two vectors before the reduction generate all quadratics orthogonal to (p, c1, c2) |
| `TwoQuadratics.ShortestVectors` | polyselect/twoquadratics.c:193-211 | no vector of the lattice but 0 is shorter than both of two reduced vectors |
| `TwoQuadratics.TwoQuadraticPolynomials` | polyselect/twoquadratics.c:214-281 | c1 is the number nearest to z (z - c1 from -(p/2) to p - p/2 - 1) that is the square root of N modulo p for i = 0 and its negative for i = 1; a and b are reduced, have the common root c1/p modulo N, generate all quadratics orthogonal to (p, c1, c2), and no such quadratic is shorter than both |
| `IntPoly.SamePolynomial` | polyselect/auxiliary.c:1937-2125 | polynomials that agree away from 0 have the same coefficients, so that rejected tries restore them |
| `Optimize.Translate` | polyselect/auxiliary.c:1921-1931 | the nested loops in place compute f(x+k) and g(x+k) |
| `Optimize.RotatedEval` | polyselect/auxiliary.c:1328-1334 | the rotated polynomial is f + k x^t g |
| `Optimize.TryTranslation` | polyselect/auxiliary.c:1968-1996 | keeps the totals right whatever the comparisons say; a rejected try restores f and g |
| `Optimize.TryRotation` | polyselect/auxiliary.c:1998-2100 | the same for rotations by k x^t g with t up to 2 |
| `Optimize.OptimizeAux` | polyselect/auxiliary.c:1937-2125 | the totals describe the current polynomials; they are those of the tries that the comparisons accepted, round by round, up to the first quiet round or the limit |
| `Optimize.PowersOfTwo` | polyselect/auxiliary.c:2102-2117 | every step size is a power of two, at most 2^n after n rounds |
| `Optimize.Growth` | polyselect/auxiliary.c:2102-2117 | after n successes in a row a step size is 2^n times as large |
| `Optimize.Decay` | polyselect/auxiliary.c:2102-2117 | after n failures in a row a step size of 2^e is 2^(e-n), or 1 |
| `Optimize.Progress` | polyselect/auxiliary.c:1964-2117 | n first comparisons accepted in a row add 2^(e+n) - 2^e to the total of a translation or of a rotation, n second ones subtract it, as long as no rotation by a higher power of x interferes |
| `Optimize.FromTheStart` | polyselect/auxiliary.c:1964-2117 | from the start, n of them bring the total to 2^n - 1 |
| `Optimize.PartStays` | polyselect/auxiliary.c:1964-2100 | a try that fails leaves its total as it was |
| `Optimize.NotQuiet` | polyselect/auxiliary.c:2118-2121 | the search goes on as long as a try succeeds |
| `Optimize.RootCarried` | polyselect/auxiliary.c:1944-1947 | a common root modulo N is carried to a common root |

## Left out

- Machine word masks, carries and shifts of gf2x/fft.c and linalg/gauss.c: words are sets of bits, and integers do not overflow.
- The hand-written products of 2 to 9 words (gf2x-small.h): `Basecase.MulBasecase` uses the schoolbook rows for them.
- Splitting one transform in two and putting the results together (`split_reconstruct`, `wrap`), and the choice of K.
- Memory management: pools, `malloc` and `free`; a buffer for aliased results is an argument of `GfMul.MulR`.
- `FilterMatrix.Matrix` keeps the lists by weight as sequences; that cells and pointers behave like them is proved in `Dclist.Lists`.
- The total weight and the buried parts of rows, except where weights of sums use them; the matrix starts without the buried columns.
- Costs and the search for superfluous rows in filter/merge_mono.c: which rows are deleted and when a run stops is arbitrary in `MergeRun.MergeOneByOne`. Resuming a run.
- Renumbering the columns of the small matrix and writing it, and the first line of the history file.
- The costs of components in filter/purge.c are floating point numbers: `qsort` may return any permutation of the list.
- `elim_table` of linalg/gauss.c, and the versions that add three rows or parts of rows.
- 32-bit and 64-bit limits of primes, roots and hash values in polyselect2.c, and of Q and S in twoquadratics.c.
- Norms, skewness, alpha values and everything else in floating point, root sieving, and the choice of polynomials to print.
- Files, compression, command lines, threads, progress output and timing.
- merge_mpi.c and the Markowitz variant, which is compiled out.
