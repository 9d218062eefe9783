# Verified model of cl_sparse

cl_sparse stores sparse matrices in four formats (COO, CSR, ELL and HYB), converts between them,
multiplies them by vectors, and multiplies two COO matrices with array primitives: scans, scatters,
gathers, a stable sort and a reduction by key. This project models the CPU side of that code in Dafny
and proves what it computes.

**How it is built.** A `Vector` is an array, a matrix is a class with the fields of the source class,
and every loop that is modelled is a loop here. Each method is proved against a function on sequences
that says what the result *is*, and the theorems are about those functions:

- A matrix, in whatever format, *means* a list of rows, each an ordered list of cells (`Rows`).
  A conversion is correct when it keeps every row (`Formats`), and a product is the left-to-right sum
  of each row's terms (`Spmv`, with `add` and `mul` uninterpreted).
- A list of COO entries over the integers *denotes* the matrix whose element at (i, j) is the sum of
  the entries there (`Denotation`).
- The product of two COO matrices is compared with the schoolbook list of all terms
  (`Expansion`, `Compression`, `SpmmTheorems`, `Spmm`).

| file | what it holds |
|---|---|
| Sequences, Vectors | sums, prefix sums, counts, offsets; filling and copying arrays |
| Scan, Scatter, GatherTransform, StableSort | the array primitives of `cl_sparse/utils` |
| RowOffsets, MatrixUtils, Reduction | offsets, row lengths, the two-pass sort, counting and merging keys |
| Rows, Formats, Layout, HybSplit, Loops, Matrices | the formats, their conversions and products |
| Spmv, Agreement | products over arbitrary operations, and their agreement |
| Denotation, Expansion, Compression, SpmmTheorems, Spmm | the sparse matrix product |
| WarpPartition | the work partition of the GPU COO product, and which warps run |

**Main results.**

1. The matrix C built by the whole pipeline denotes A·B, for every A and every row-sorted B
   (`Spmm.Multiply`, `SpmmTheorems.SpmmIsProduct`); multiplying a vector by C is multiplying it by B
   and then by A (`SpmmTheorems.SpmmAssociates`).
2. The expansion enumerates every matching pair of entries exactly once, in schoolbook order
   (`Expansion.ExpandedIsSchoolbook`, `Expansion.PairEnumerated`); it misses none, whatever A is, if
   and only if B is sorted by row (`Expansion.CompleteIffSorted`).
3. C has an entry at (i, j) if and only if some matching pair contributes to (i, j), even if the sum is 0
   (`SpmmTheorems.SpmmKeys`), and is determined to the last entry (`SpmmTheorems.SpmmDetermined`). Because the
   sort calls leave out the last element, it is in canonical form if and only if no matching pair has a
   greater key than the last one, and free of duplicates if and only if, failing that, no other pair has the
   last one's key (`SpmmTheorems.SpmmForm`, for every A and every row-sorted B).
4. The COO, CSR, ELL and HYB products of one matrix are equal with no law of arithmetic
   (`Spmv.ProductsAgree`, and the methods of `Agreement`).
5. CSR → COO → CSR and CSR → ELL → CSR change nothing, and COO → CSR → COO is the stable sort by row
   (`Formats`). CSR → HYB → CSR changes nothing if and only if no empty row has a positive number left over
   in the memory of `nnzcoo` (`HybSplit.RoundTripIff`); it is right for every content of that memory if and
   only if no row is empty (`HybSplit.SplitForAnyMemory`).
6. The warp intervals partition the work, but every one of them is worked on if and only if there are fewer
   than 160 entries (`WarpPartition.IntervalsPartition`, `WarpPartition.AllCoveredIff`).

**Where the code and what it is for differ.** The model does what the code does, and the theorem says
exactly when that is enough.

- The sort passes `&x[size - 1]` as an exclusive end (`cl_sparse/utils/matrix_utils.cpp:101` and `:105`), so
  the last element is not sorted. The denoted matrix is unaffected; canonical form is not guaranteed
  (`SpmmTheorems.NotAlwaysCanonical` has two canonical matrices whose product has a key twice), and
  `SpmmTheorems.SpmmCanonicalIff` and `SpmmTheorems.SpmmNoDuplicatesIff` give the exact conditions on A and
  B. `Compression.FullSortCanonical` is the result for the full range.
- `sort_by_row_and_column` begins by printing the first five elements of the permutation
  (`cl_sparse/utils/matrix_utils.cpp:86-87`), through an `operator[]` that asserts the index
  (`cl_sparse/vector/cpu_vector.cpp:269-271`). As written, a product of one to four terms therefore stops
  there, and without assertions it reads out of bounds. The methods report this in a result, `completes`:
  `Spmm.Multiply` gets to its end if and only if no pair of entries matches, or at least five do. What they
  promise of C holds for every number of terms, the output taken away.
- `calculate_offsets` counts on top of what `row_offsets` holds. `MatrixUtils.CalculateOffsets` is proved for
  any contents, and `RowOffsets.OffsetsNeedZeros` says which contents give the offsets: those that are zero
  before the last two elements.
- The conversions to CSR count on top of memory that has just been allocated
  (`cl_sparse/matrix/matrixcsr_cpu.cpp:88`, `:225`, `:310`), and what it holds is a parameter of theirs. From
  COO, the four offset loops are those of `calculate_offsets`, so the same contents are needed, and
  `Loops.CountingSort` is proved for all of them. From ELL and HYB, `Loops.EllOffsets` and `Loops.HybOffsets`
  say what any contents lead to, and `RowOffsets.SumsNeedZeros` that the offsets come out right exactly when
  all elements but the last are zero.
- `nnzcoo[i]` is never assigned for an empty row (`cl_sparse/matrix/matrixhyb_cpu.cpp:172-192`), and the copying
  loop reads it. What the new array holds is a parameter of the conversion. `HybSplit.LeftoversFit` is exactly
  what keeps the loop inside its arrays (`HybSplit.FitsExactly`); within that, `Matrices.MatrixHYB.GetData` is
  proved to write `HybSplit.HybWritten`, and `HybSplit.RowsKeptIff` says that its rows are those of the CSR matrix
  if and only if no empty row has a positive leftover. `HybSplit.LeftoverExample` has two rows, the second
  empty with 1 left over: the one COO entry ends up in row 1. The results about `Formats.HybOf` are about the
  split that is meant.
- The host launches groups of 128 work items (`cl_sparse/matrix/matrixcoo_gpu.cpp:199` and `:276-280`), while the
  kernel numbers its warps as if a group had 256 (`cl_sparse/coo_kernels/coo_matrix_krenels.cl:2` and `:106-108`). Of
  every eight warps only the first four run (`WarpPartition.LaunchedIff`): from 160 entries on, active warp 4 is
  not launched and the entries of its interval are skipped (`WarpPartition.FifthSkipped`).
- The assertions in the HYB conversion reject a matrix whose COO part would be empty
  (`cl_sparse/matrix/matrixhyb_cpu.cpp:152-154`). `Matrices.MatrixHYB.GetData` reports this in a result, and says
  exactly when it happens; other assertions of the source are preconditions.
- A comment in `cl_sparse/utils/transform.h` puts the product inside the first subscript; the code multiplies
  the two elements, and so does the model.

## Model

| member | source | states |
|---|---|---|
| Scan.ExclusiveScan | cl_sparse/utils/scan.cpp:5-25 | each position gets the sum of the inputs before it, also when input and output are the same array; nothing outside the range changes |
| Scan.InclusiveScanMax | cl_sparse/utils/scan.cpp:42-63 | each position gets the greatest input so far, also in place |
| Scan.InclusiveScanByKey | cl_sparse/utils/scan.cpp:66-89 | each position gets the sum of its own run of equal keys so far, whichever of the three arrays coincide |
| Scan.MaxIsGreatest | cl_sparse/utils/scan.cpp:42-63 | the running value is the one element that is an upper bound of all |
| Scan.RunStartIsMaximal | cl_sparse/utils/scan.cpp:73-86 | the run summed is the maximal stretch of keys equal to the current one |
| Scatter.LastWriter | cl_sparse/utils/scatter.cpp:36-40 | which flagged index writes a position last, or that none does |
| Scatter.ScatteredWrite | cl_sparse/utils/scatter.cpp:36-40 | a flagged write that no later one goes over is what its position holds |
| Scatter.ScatteredKept | cl_sparse/utils/scatter.cpp:36-40 | a position that no flagged write goes to is left alone |
| Scatter.ScatterIf | cl_sparse/utils/scatter.cpp:30-41 | every position holds what its last flagged writer wrote, or its old value |
| Scatter.ScatterIfPermuted | cl_sparse/utils/scatter.cpp:44-58 | the same, with the input read through a permutation |
| Gather.Gather | cl_sparse/utils/gather.cpp:4-11 | the output starts with the input read through the map, the rest is unchanged |
| Transform.Transform | cl_sparse/utils/transform.cpp:4-12 | the range holds the products of the two gathered inputs, the rest is unchanged |
| Vectors.Fill | cl_sparse/vector/cpu_vector.cpp:277-280 | every element becomes the value |
| Vectors.Counting | cl_sparse/vector/cpu_vector.cpp:46-55 | a new vector counting up from begin |
| StableSort.StableSortByKey | cl_sparse/utils/matrix_utils.cpp:101-105 | the first keys, and their values with them, are moved by the stable sorting permutation; the others stay |
| StableSort.SortPermIsStable | cl_sparse/utils/matrix_utils.cpp:101-105 | the permutation makes keys ascend and keeps equal keys in index order |
| StableSort.SortPermPermutes | cl_sparse/utils/matrix_utils.cpp:101-105 | reading any sequence in that order loses and repeats nothing |
| RowOffsets.CountRows | cl_sparse/utils/matrix_utils.cpp:44-45 | each offset grows by the number of entries in its row |
| RowOffsets.SumOffsets | cl_sparse/utils/matrix_utils.cpp:48-57 | the counts become their prefix sums, with the total behind them |
| RowOffsets.ShiftOffsets | cl_sparse/utils/matrix_utils.cpp:66-72 | every offset moves up by one place and 0 enters in front |
| RowOffsets.ComputeOffsets | cl_sparse/utils/matrix_utils.cpp:43-72 | the four loops in sequence: the number of entries below each row, plus what the initial contents add |
| RowOffsets.OffsetsFromSteps | cl_sparse/utils/matrix_utils.cpp:43-72 | the first offset is 0, and each is the one before plus the count of its row and what the element before held |
| RowOffsets.OffsetsNeedZeros | cl_sparse/utils/matrix_utils.cpp:27-74 | the loops give the row offsets if and only if the vector was zero before its last two elements |
| RowOffsets.SumsNeedZeros | cl_sparse/matrix/matrixcsr_cpu.cpp:225-245 | what the ELL and HYB loops leave for given contents is the offsets if and only if those contents were all zero |
| RowOffsets.StartOffsets | cl_sparse/matrix/matrixcsr_cpu.cpp:174-187 | from an array that is zero before its last two elements, counting and summing gives, for each row, the number of entries in the rows before it |
| RowOffsets.RestoreOffsets | cl_sparse/matrix/matrixcsr_cpu.cpp:200-206 | offsets that have served as cursors are restored by the shift |
| MatrixUtils.CalculateOffsets | cl_sparse/utils/matrix_utils.cpp:27-74 | what row_offsets holds afterwards, for any contents before: 0 first, and steps of the row counts plus those contents |
| MatrixUtils.CalculateRowLengths | cl_sparse/utils/matrix_utils.cpp:18-22 | each length is the difference of two neighbouring offsets |
| MatrixUtils.LengthsFromOffsets | cl_sparse/utils/matrix_utils.cpp:16-22 | from correct offsets these differences are the numbers of entries per row |
| MatrixUtils.DebugReads | cl_sparse/utils/matrix_utils.cpp:85-87 | the five reads stay inside the vector if and only if it has at least five elements |
| MatrixUtils.SortKeys | cl_sparse/utils/matrix_utils.cpp:89-110 | both key vectors are moved by one permutation, which is left in the third |
| MatrixUtils.SortByRowAndColumn | cl_sparse/utils/matrix_utils.cpp:78-117 | rows, columns and values are each moved by the two-pass order of all but the last entry; whether the debug output lets it complete |
| MatrixUtils.CalculateNnz | cl_sparse/utils/matrix_utils.cpp:128-168 | the count is the number of entries that reduce_by_key writes |
| Reduction.ReduceByKey | cl_sparse/utils/reduce.cpp:14-69 | C's arrays, sized by that count, hold exactly the merged runs of the input |
| Reduction.ReduceStep | cl_sparse/utils/reduce.cpp:48-63 | one more entry adds its value to the last result if its key is that of the entry before, and is appended otherwise |
| Compression.LexOrderIsStable | cl_sparse/utils/matrix_utils.cpp:90-110 | the two passes order the sorted range by row, then column, then original position, and touch nothing behind it |
| Compression.LexOrderPermutes | cl_sparse/utils/matrix_utils.cpp:90-116 | the common order is a permutation |
| Compression.SortedEntriesAscend | cl_sparse/utils/matrix_utils.cpp:78-117 | the sorted range has ascending keys and the same entries, the rest keeps its place |
| Compression.ReduceLength | cl_sparse/utils/reduce.cpp:28-68 | one entry is written per change of key, and one more |
| Compression.ReduceConserves | cl_sparse/utils/reduce.cpp:28-68 | on any input, no weighted total of the entries changes |
| Compression.ReduceKeys | cl_sparse/utils/reduce.cpp:28-68 | no key is lost and none is invented |
| Compression.ReduceCanonical | cl_sparse/utils/reduce.cpp:28-68 | on ascending keys the result has strictly increasing keys |
| Compression.CompressedConserves | cl_sparse/main.cpp:171-185 | sorting and merging together change no weighted total, however much of the range is sorted |
| Compression.HeadIncreases | cl_sparse/main.cpp:171-185 | all merged entries but the last strictly increase in key |
| Compression.CanonicalDetermined | cl_sparse/main.cpp:171-185 | entries in canonical form are determined by their keys and by the matrix they denote |
| Compression.FullSortCanonical | cl_sparse/utils/matrix_utils.cpp:90-110 | with the whole range sorted the merged result is always canonical |
| Compression.CanonicalIffLastGreatest | cl_sparse/utils/matrix_utils.cpp:101-105 | as written, the merged result is canonical if and only if no entry's key exceeds the last one's |
| Compression.NoDuplicatesIff | cl_sparse/utils/matrix_utils.cpp:101-105 | as written, it has no duplicate key if and only if the last key is the greatest or does not occur earlier |
| Denotation.SchoolbookIsProduct | cl_sparse/main.cpp:158-161 | the list of all terms denotes the matrix product, repeated entries counting as sums |
| Denotation.SchoolbookAssociates | cl_sparse/main.cpp:158-161 | weighing the terms with a vector is multiplying it by B and then by A |
| Denotation.CooProductIsDense | cl_sparse/matrix/matrixcoo_cpu.cpp:454-473 | each element of the COO product is the sum over k of the denoted element (i, k) times x(k) |
| Expansion.AGatherIs | cl_sparse/main.cpp:79-100 | after the scatter and the running maximum, a position holds the one segment that contains it, empty segments notwithstanding |
| Expansion.BGatherIs | cl_sparse/main.cpp:105-121 | after the scatter and the scan by key, a position holds its row's offset plus its distance from the start of its segment |
| Expansion.GathersAreIndexes | cl_sparse/main.cpp:79-121 | both location vectors at once, for the segments of two matrices |
| Expansion.BIndexInRow | cl_sparse/main.cpp:105-121 | the location in B stays between the two offsets of the row that A's entry meets, even if B is not sorted |
| Expansion.PairMatches | cl_sparse/main.cpp:79-121 | every position combines two entries that match |
| Expansion.PairEnumerated | cl_sparse/main.cpp:79-121 | every pair of matching entries has a position, and only one |
| Expansion.CompleteIffSorted | cl_sparse/main.cpp:105-121 | no matching pair is missed, whatever A is, if and only if B is sorted by row |
| Expansion.OffsetsDelimitIffSorted | cl_sparse/utils/matrix_utils.cpp:16-22 | every entry lies between the offsets of its row if and only if the entries are sorted by row |
| Expansion.ExpandedIsSchoolbook | cl_sparse/main.cpp:79-161 | the gathered and multiplied vectors are the schoolbook terms, in the same order: row of the one entry, column of the other, product of the values |
| Expansion.RowCountsTotal | cl_sparse/main.cpp:214-225 | the row lengths of B add up to its number of entries |
| Expansion.WorkspaceIsMatches | cl_sparse/main.cpp:231-249 | the workspace size is the number of matching pairs |
| SpmmTheorems.SpmmIsProduct | cl_sparse/main.cpp:48-189 | C(i, j) is the sum over k of A(i, k) times B(k, j) |
| SpmmTheorems.SpmmAssociates | cl_sparse/main.cpp:48-189 | the COO product by C equals the COO product by B followed by the one by A, for every vector |
| SpmmTheorems.SpmmValid | cl_sparse/main.cpp:182-185 | C's entries lie inside A.nrow by B.ncol |
| SpmmTheorems.SpmmKeys | cl_sparse/utils/reduce.cpp:48-63 | C has an entry at (i, j) if and only if some matching pair has that key, even if its terms cancel |
| SpmmTheorems.SpmmHasPattern | cl_sparse/main.cpp:171-185 | the same for every (i, j), and C's entries before the last strictly increase in key |
| SpmmTheorems.SpmmDetermined | cl_sparse/main.cpp:171-185 | C is the one list that denotes A times B and either is canonical with the keys of the pairs, or ends in the last pair's term alone behind canonical entries for all other pairs |
| SpmmTheorems.LastTerm | cl_sparse/main.cpp:128-161 | the last expanded term belongs to the last matching pair, and is the product of its entries |
| SpmmTheorems.LastMatchExists | cl_sparse/main.cpp:128-161 | when any pair matches, one of them is the last |
| SpmmTheorems.SpmmCanonicalIff | cl_sparse/main.cpp:171-185 | C is canonical if and only if no matching pair has a greater key than the last matching pair |
| SpmmTheorems.SpmmNoDuplicatesIff | cl_sparse/main.cpp:171-185 | C has no duplicate key if and only if no matching pair has a greater key than the last, or no other has the same key |
| SpmmTheorems.SpmmForm | cl_sparse/main.cpp:48-189 | both equivalences for every A and every row-sorted B, with or without a matching pair |
| SpmmTheorems.NotAlwaysCanonical | cl_sparse/utils/matrix_utils.cpp:101-105 | two canonical matrices with five matching pairs whose product is not canonical and has a duplicate key |
| SpmmTheorems.EmptyProduct | cl_sparse/main.cpp:72-77 | without a matching pair C is empty |
| Spmm.LocateA | cl_sparse/main.cpp:79-100 | the method that fills A_gather_locations, the maximum scan in place |
| Spmm.LocateB | cl_sparse/main.cpp:105-121 | the method that fills B_gather_locations, the scan by key in place |
| Spmm.GatherTerms | cl_sparse/main.cpp:128-161 | I, J and V are rows, columns and products read through the two location vectors |
| Spmm.ExpandAll | cl_sparse/main.cpp:79-161 | I, J and V together are the schoolbook terms of A and B |
| Spmm.CompressInto | cl_sparse/main.cpp:171-185 | sorting, counting, resizing and merging leave the compressed terms in C; complete from five terms on |
| Spmm.MergeInto | cl_sparse/main.cpp:176-185 | counting, resizing and merging leave the merged runs in C |
| Spmm.CooSpmmHelper | cl_sparse/main.cpp:48-189 | C gets exactly the merged, sorted terms, and A and B's dimensions, empty workspace included; complete for none or at least five terms |
| Spmm.RowSetUp | cl_sparse/main.cpp:214-225 | offsets and lengths of B's rows |
| Spmm.OutputPtr | cl_sparse/main.cpp:241-244 | all prefix sums of the segment lengths, the last one added by hand |
| Sequences.PrefixMonotone | cl_sparse/main.cpp:241-244 | output_ptr never decreases and starts from 0 |
| Spmm.SetUp | cl_sparse/main.cpp:210-244 | what the helper needs: B's offsets, the segment lengths and output_ptr |
| Spmm.OnePassIff | cl_sparse/main.cpp:246-278 | one pass is enough for at most 102 terms, and for no more |
| Spmm.Run | cl_sparse/main.cpp:210-298 | with the capacity test: for at most 102 matching pairs C denotes A times B and has exactly the keys of the pairs, otherwise it is not touched |
| Spmm.Multiply | cl_sparse/main.cpp:210-298 | set-up and helper together: C is valid, denotes A times B and has exactly the keys of the matching pairs, increasing before the last; complete if and only if no pair matches or at least five do |
| Formats.RowsOfCsrOf | cl_sparse/matrix_types.h:59-68 | a CSR matrix built from rows has those rows |
| Formats.CsrOfRows | cl_sparse/matrix_types.h:59-68 | a valid CSR matrix is determined by its rows, so row_offset, col and val are |
| Formats.CsrCooCsr | cl_sparse/matrix/matrixcoo_cpu.cpp:476-497 | CSR to COO and back is the identity |
| Formats.StableSortKeepsRows | cl_sparse/matrix/matrixcsr_cpu.cpp:189-198 | a stable sort by row keeps the entries of every row in order |
| Formats.CooCsrCoo | cl_sparse/matrix/matrixcsr_cpu.cpp:159-208 | COO to CSR and back is the stable sort by row, and the identity on row-sorted entries |
| Formats.SlotsDistinct | cl_sparse/matrix/matrixcsr_cpu.cpp:189-198 | no two entries share a destination, and entries of one row keep their order |
| Formats.SlotsCover | cl_sparse/matrix/matrixcsr_cpu.cpp:189-198 | every destination is written |
| Formats.MaxLengthIsLeast | cl_sparse/matrix/matrixell_cpu.cpp:142-149 | the ELL width is the length of some row |
| Formats.EllOfIs | cl_sparse/matrix/matrixell_cpu.cpp:142-178 | every row fits the ELL width and no smaller one; slot n of row i, at n * nrow + i, holds the row's cell n, or column -999 behind the last |
| Formats.EllRowSlots | cl_sparse/matrix/matrixcsr_cpu.cpp:255-264 | wherever the padding stands, a row is read as the cells of exactly the slots with a column in range, in order |
| Formats.EllKeepsRow | cl_sparse/matrix/matrixell_cpu.cpp:156-178 | slots never collide and padding is never read as an entry: a row's slots give back its first cells |
| Formats.EllOfKeepsRows | cl_sparse/matrix/matrixell_cpu.cpp:131-179 | the ELL form keeps every row when all columns are in range |
| Formats.CsrEllCsr | cl_sparse/matrix/matrixcsr_cpu.cpp:211-267 | CSR to ELL and back is the identity |
| Formats.HybOfKeepsRows | cl_sparse/matrix/matrixhyb_cpu.cpp:124-210 | the HYB form that is meant is valid, its COO part sorted by row, and keeps every row at every width |
| Formats.HybWidthIs | cl_sparse/matrix/matrixhyb_cpu.cpp:137-138 | a width that is set is kept; otherwise width * nrow <= nnz < (width + 1) * nrow |
| Formats.CsrHybCsr | cl_sparse/matrix/matrixcsr_cpu.cpp:300-390 | with the split that is meant, CSR to HYB and back is the identity at every width |
| Formats.SpillLands | cl_sparse/matrix/matrixhyb_cpu.cpp:197-207 | a cell beyond the width is found in COO slot `j - nnzell[i]` with its row, column and value |
| Formats.SpillSlotsExact | cl_sparse/matrix/matrixhyb_cpu.cpp:197-207 | those slots hit every index of the COO part exactly once |
| Formats.SplitPlaces | cl_sparse/matrix/matrixhyb_cpu.cpp:176-207 | every CSR cell lands in exactly one of its ELL slot and its COO slot |
| Formats.EllSavesWhatItLoads | cl_sparse/matrix/matrixell_cpu.cpp:109-125 | row-sorted entries loaded into ELL and saved come back unchanged |
| Formats.HybSavesWhatItLoads | cl_sparse/matrix/matrixhyb_cpu.cpp:103-120 | the same for HYB with the split that is meant, at every width |
| HybSplit.CopiedStep | cl_sparse/matrix/matrixhyb_cpu.cpp:201-207 | the pass of one more row, whatever its count is, gives each slot its last writer's cell |
| HybSplit.FitsExactly | cl_sparse/matrix/matrixhyb_cpu.cpp:201-207 | the copying loop stays inside its arrays if and only if no empty row's leftover exceeds the number of cells spilled before it |
| HybSplit.AnyBefore | cl_sparse/matrix/matrixhyb_cpu.cpp:165-207 | every slot is written, so what the new COO arrays held does not matter |
| HybSplit.CopierIs | cl_sparse/matrix/matrixhyb_cpu.cpp:201-207 | the last writer of a slot is the row it is meant for, or an empty row behind it with a positive leftover |
| HybSplit.WrittenAt | cl_sparse/matrix/matrixhyb_cpu.cpp:201-207 | each slot holds its last writer's label, and column and value of the CSR cell that writer copies |
| HybSplit.Displaced | cl_sparse/matrix/matrixhyb_cpu.cpp:201-207 | a positive leftover takes some slot away from a row before it |
| HybSplit.SplitSorted | cl_sparse/matrix/matrixhyb_cpu.cpp:201-207 | the COO part is sorted by row, leftovers or not |
| HybSplit.SplitIff | cl_sparse/matrix/matrixhyb_cpu.cpp:169-207 | the COO part is the one that is meant if and only if no empty row has a positive leftover |
| HybSplit.SplitForAnyMemory | cl_sparse/matrix/matrixhyb_cpu.cpp:169-207 | it is so for every content of the memory if and only if no row is empty |
| HybSplit.RowsKeptIff | cl_sparse/matrix/matrixhyb_cpu.cpp:124-210 | the HYB matrix has the rows of the CSR matrix if and only if no empty row has a positive leftover |
| HybSplit.RoundTripIff | cl_sparse/matrix/matrixcsr_cpu.cpp:300-390 | CSR to HYB and back is the identity under the same condition, and under no other |
| HybSplit.SavesWhatItLoadsIff | cl_sparse/matrix/matrixhyb_cpu.cpp:103-120 | row-sorted entries loaded and saved come back unchanged under the same condition, and under no other |
| HybSplit.LeftoverExample | cl_sparse/matrix/matrixhyb_cpu.cpp:169-207 | an accepted matrix whose one COO entry is stored in the wrong row |
| Spmv.ProductsAgree | cl_sparse/matrix/matrixhyb_cpu.cpp:213-254 | the COO, CSR, ELL and HYB products of one matrix, sorted or not, are equal for every `add` and `mul` |
| Spmv.ProductIsOrderedSum | cl_sparse/matrix/matrixcsr_cpu.cpp:284-293 | an element of the product is zero with the row's terms added one after the other, in order, for every `add` and `mul` |
| Spmv.PartialStep | cl_sparse/matrix/matrixcoo_cpu.cpp:468-469 | one entry extends its own row's sum by one term and changes no other row |
| Spmv.PartialFromEll | cl_sparse/matrix/matrixhyb_cpu.cpp:230-251 | the COO loop on top of the ELL product completes the sums of the whole rows |
| Loops.LabelRows | cl_sparse/matrix/matrixcoo_cpu.cpp:488-490 | each position gets the row whose offsets enclose it |
| Loops.PlaceEntries | cl_sparse/matrix/matrixcsr_cpu.cpp:189-198 | the cells end up as the rows one after the other, and each cursor at the next row's offset |
| Loops.CountingSort | cl_sparse/matrix/matrixcsr_cpu.cpp:166-206 | the three arrays are the CSR matrix with the rows of the entries, whatever the last two elements of row_offset held |
| Loops.LongestRow | cl_sparse/matrix/matrixell_cpu.cpp:143-149 | the greatest row length |
| Loops.FillEll | cl_sparse/matrix/matrixell_cpu.cpp:156-178 | cells first, then padding, column-major |
| Loops.EllRowSum | cl_sparse/matrix/matrixell_cpu.cpp:193-202 | one element of the output becomes the sum of the row's entries, in slot order |
| Loops.EllOffsets | cl_sparse/matrix/matrixcsr_cpu.cpp:227-245 | for any contents of row_offset before: the prefix sums of those contents plus the lengths of the rows that the slots hold |
| Loops.UnpackEll | cl_sparse/matrix/matrixcsr_cpu.cpp:247-266 | the cells of all rows, one row after the other |
| Loops.AddEntries | cl_sparse/matrix/matrixcoo_cpu.cpp:468-469 | each output element is extended by the terms of its own row, in entry order |
| Loops.CountSpills | cl_sparse/matrix/matrixhyb_cpu.cpp:140-147 | coo_nnz is the number of cells beyond the width |
| Loops.FillHybRow | cl_sparse/matrix/matrixhyb_cpu.cpp:178-192 | one row of the ELL part; nnzcoo of an empty row keeps what it held |
| Loops.FillHybEll | cl_sparse/matrix/matrixhyb_cpu.cpp:172-195 | the first cells of each row in padded slots, with what nnzell and nnzcoo hold, for any contents of nnzcoo before |
| Loops.FillHybCoo | cl_sparse/matrix/matrixhyb_cpu.cpp:200-207 | for any counts that stay inside the arrays, each slot holds what was last written to it |
| Loops.SumInclusive | cl_sparse/matrix/matrixhyb_cpu.cpp:197-198 | nnzell becomes its inclusive prefix sums |
| Loops.FillHybCooOf | cl_sparse/matrix/matrixhyb_cpu.cpp:200-207 | the COO arrays hold the part that the leftovers lead to |
| Loops.CountCooRow | cl_sparse/matrix/matrixcsr_cpu.cpp:333-343 | the cursor `start` moves from the number of COO entries before a row to the number up to and including it |
| Loops.CopyCooRow | cl_sparse/matrix/matrixcsr_cpu.cpp:376-388 | the same walk appends the row's COO entries behind its ELL cells |
| Loops.HybOffsets | cl_sparse/matrix/matrixcsr_cpu.cpp:318-353 | the same, for the rows of both parts together |
| Loops.UnpackHyb | cl_sparse/matrix/matrixcsr_cpu.cpp:358-389 | the cells of all rows, ELL cells before COO entries |
| Matrices.MatrixCOO.Resize | cl_sparse/matrix/matrixcoo_cpu.cpp:231-284 | new dimensions; the arrays are replaced only if the number of entries changes, and the first entries are kept, as many as fit |
| Matrices.MatrixCOO.GetData | cl_sparse/matrix/matrixcoo_cpu.cpp:476-497 | the entries of the CSR matrix, row after row |
| Matrices.MatrixCOO.Multiply | cl_sparse/matrix/matrixcoo_cpu.cpp:454-473 | each element is the ordered sum of the terms of its row |
| Matrices.MatrixCSR.GetDataFromCoo | cl_sparse/matrix/matrixcsr_cpu.cpp:159-208 | the CSR matrix whose rows are the entries of each row, in their order, when the new row_offset is zero before its last two elements |
| Matrices.MatrixCSR.GetDataFromEll | cl_sparse/matrix/matrixcsr_cpu.cpp:211-267 | the CSR matrix with the rows of the ELL matrix, when the new row_offset is zero before its last element |
| Matrices.MatrixCSR.GetDataFromHyb | cl_sparse/matrix/matrixcsr_cpu.cpp:300-390 | the CSR matrix whose rows are the ELL cells and then the COO entries of each row, when the new row_offset is zero before its last element |
| Matrices.MatrixCSR.Save | cl_sparse/matrix/matrixcsr_cpu.cpp:109-114 | the entries that are written out |
| Matrices.MatrixCSR.RowSum | cl_sparse/matrix/matrixcsr_cpu.cpp:288-290 | the ordered sum of one row's terms |
| Matrices.MatrixCSR.Multiply | cl_sparse/matrix/matrixcsr_cpu.cpp:270-296 | each element is the ordered sum of the terms of its row |
| Matrices.MatrixELL.GetData | cl_sparse/matrix/matrixell_cpu.cpp:131-179 | the ELL matrix of the CSR matrix's rows, at the least width that holds them, column -999 behind each row |
| Matrices.MatrixELL.Load | cl_sparse/matrix/matrixell_cpu.cpp:109-115 | the same for the entries' rows |
| Matrices.MatrixELL.Save | cl_sparse/matrix/matrixell_cpu.cpp:118-125 | the entries of its rows, row after row |
| Matrices.MatrixELL.Multiply | cl_sparse/matrix/matrixell_cpu.cpp:182-204 | each element is the ordered sum of the terms of its row |
| Matrices.MatrixHYB.GetData | cl_sparse/matrix/matrixhyb_cpu.cpp:124-210 | the width set before, or the average row length rounded down; accepted if and only if it is positive and some row is longer; then the split that the memory of nnzcoo leads to, column -1 behind a short row, which is the one that is meant when no empty row has a positive leftover |
| Matrices.MatrixHYB.Load | cl_sparse/matrix/matrixhyb_cpu.cpp:103-110 | the same, for the entries' rows |
| Matrices.MatrixHYB.Save | cl_sparse/matrix/matrixhyb_cpu.cpp:113-120 | the entries of its rows, row after row |
| Matrices.MatrixHYB.Multiply | cl_sparse/matrix/matrixhyb_cpu.cpp:213-254 | each element is the ordered sum of the terms of its row; without an ELL part the old contents are added to, and an empty matrix changes nothing; the COO part may be in any order |
| Agreement.ThroughCoo | cl_sparse/matrix/matrixcoo_cpu.cpp:454-473 | the COO product of a matrix in memory |
| Agreement.ThroughCsr | cl_sparse/matrix/matrixcsr_cpu.cpp:159-296 | the same vector through CSR |
| Agreement.ThroughEll | cl_sparse/matrix/matrixell_cpu.cpp:109-204 | the same vector through ELL |
| Agreement.ThroughHyb | cl_sparse/matrix/matrixhyb_cpu.cpp:103-254 | the same vector through HYB, at any width, whenever HYB accepts the matrix: the same product without positive leftovers, and that of the rows that were written in any case |
| WarpPartition.LaunchFits | cl_sparse/matrix/matrixcoo_gpu.cpp:195-216 | active_warps ≤ num_warps ≤ 4 · num_blocks < num_warps + 4, num_blocks ≤ 32, and fewer than 32 entries are left for the serial step |
| WarpPartition.NumWarpsIs | cl_sparse/matrix/matrixcoo_gpu.cpp:204-205 | num_warps is the number of whole units of 32 entries, or 128 if that is less |
| WarpPartition.IntervalIsLeast | cl_sparse/matrix/matrixcoo_gpu.cpp:207-209 | interval_size is the least multiple of 32 with which 128 warps reach the tail |
| WarpPartition.ActiveWarpsAre | cl_sparse/matrix/matrixcoo_gpu.cpp:215 | active_warps is the least number of intervals that reach the tail |
| WarpPartition.IntervalsFollow | cl_sparse/coo_kernels/coo_matrix_krenels.cl:110-115 | the intervals start at 0 and follow one another, all of interval_size but the last, which ends at the tail |
| WarpPartition.IntervalNotEmpty | cl_sparse/matrix/matrixcoo_gpu.cpp:205-216 | no active warp's interval is empty |
| WarpPartition.IntervalsPartition | cl_sparse/matrix/matrixcoo_gpu.cpp:205-216 | every entry before the tail belongs to exactly one active warp |
| WarpPartition.LaunchedIff | cl_sparse/coo_kernels/coo_matrix_krenels.cl:106-108 | the warps that run are the first four of every eight, num_blocks times |
| WarpPartition.AllLaunchedIff | cl_sparse/matrix/matrixcoo_gpu.cpp:199-280 | every active warp runs if and only if there are fewer than 160 entries |
| WarpPartition.AllCoveredIff | cl_sparse/coo_kernels/coo_matrix_krenels.cl:106-122 | every entry before the tail is worked on if and only if there are fewer than 160 entries |
| WarpPartition.FifthSkipped | cl_sparse/coo_kernels/coo_matrix_krenels.cl:106-122 | from 160 entries on, no warp that runs works on the interval of active warp 4, which is not empty |
| WarpPartition.NoWrapAround | cl_sparse/matrix/matrixcoo_gpu.cpp:205-216 | for every positive 32-bit nnz above 32 the int and unsigned expressions stay in range |

## Left out

- Spmm.Multiply: the one-pass branch of `main` only, at any size; the capacity test that selects it is in `Spmm.Run`. The slicing branch and `calculate_end_row` are unfinished in the source (the function always returns 1).
- Spmm.CooSpmmHelper: begin_segment is 0 and end_segment is nnz(A), the values of its only call (`cl_sparse/main.cpp:290`; the slicing branch never calls it); B is sorted by row, as a loaded matrix is (for which B the enumeration is complete is `Expansion.CompleteIffSorted`).
- Spmm.LocateA: begin_segment is 0, for the same reason.
- Spmm.LocateB: begin_segment is 0, for the same reason.
- Spmm.ExpandAll: begin_segment is 0 and B is sorted by row, for the same reasons.
- Matrices.MatrixCSR.GetDataFromCoo: contents of `row_offset` that send a cell out of bounds, in the same way as in the conversions from ELL and HYB; the loads and saves that go by way of CSR take zeros.
- Matrices.MatrixHYB.GetData: leftovers in `nnzcoo` that send the copying loop out of bounds; the matrix's state after a failed assertion is not described.
- 32-bit overflow of indices and values on the CPU: signed overflow has no defined result in the source; integers are unbounded here.
- Floating-point rounding: the sparse matrix product is over the integers, at which the classes are also instantiated; the products with vectors hold for any operations, rounded ones included.
- `MatrixCOO::load`, the Matrix Market files and their typecodes, printing, saving to files and timers: input and output. `Load` and `Save` start and end at entries in memory; that loaded entries are sorted is a precondition where it matters.
- OpenCL set-up, kernels and the GPU classes, apart from the partition arithmetic, the numbering of the warps and the bounds of their intervals. That a device runs the work items it is given is assumed; the segmented reductions inside the kernels are not part of this model.
- The internals of thrust: an insertion sort on indices stands in for `stable_sort_by_key`, and only its stability and permutation are used.
- Memory management: `clear`, destructors, raw pointers, and that `resize` copies beyond the end of the old arrays when it makes them longer. `MatrixHYB::allocate` and the copies from the GPU are left out with it.
- `scatter`, `scatter_permuted`, `inclusive_scan`, the element-wise `Vector` operators and the clBLAS wrappers: they would only add easy members.
- The order in which the source assigns the fields of CSR, ELL and HYB matrices: the conversions from and to ELL and HYB fill new arrays first and install them together.
