# Dense matrices, matrix products, polynomial fitting and byte counting, in Dafny

This project models the numerical core of a course repository on numerical
software development, as values and pure functions (loops appear as methods
over sequences), and proves what each piece computes:

- **`Layout`**: the dense `Matrix` of `nsd/04matrix/code/la01_gesv.cpp`
  (identical in `la04_gesvd.cpp`). It has a run-time choice of row-major or
  column-major storage, an owned heap buffer that is null for empty
  matrices, copy and move semantics, and the leading dimension handed to
  LAPACK.
- **`CacheMatrix`** and **`MatrixProduct`**: the row-major integer-valued
  `Matrix` of `nsd/05cache/code/03_matrix_matrix.cpp`, with its transpose
  and equality. Also its four multiplication variants: naive i-k-j and i-j-k,
  direct buffer access, and the tiled product built from `Block<N>` and
  `Tiler<N>`. The naive variants and the corrected direct variant are
  proved to compute the reference product for every shape. The direct
  variant as written is proved to be the product when `ncol1 == ncol2`,
  and two counterexamples show it failing for other shapes. The tiled
  product is proved correct on the cells its full tiles cover, and is the
  whole product when the tile size divides every dimension.
- **`PolyFit`**: `fit_poly` and `fit_polys` of
  `nsd/11arraydesign/code/data_prep.cpp`. These cover the normal equations
  of polynomial least squares, the reversal of the coefficients, and the
  partition of sorted samples into unit-width batches.
- **`ByteCounting`**: the shared, reference-counted `ByteCounter` and the
  counting `MyAllocator<T>` of `nsd/07mem/code/alloc.cpp`. The heap of
  `ByteCounterImpl` objects is modelled explicitly, together with the
  invariant that every impl's reference count equals the number of counters
  pointing at it.
- **`Growable`**: the `Storage` buffer of
  `writing/2018/cpp11_set/code/move1.cpp`, with its deep copy, its append
  with doubling growth, and the by-value `extend`.
- **`Errors`** (the exception kinds as a `Result`) and **`Arith`** (the flat
  offset `i * stride + j` and tile arithmetic) are shared.

## Model

| member | source | states |
|---|---|---|
| Layout.IndexInBounds | nsd/04matrix/code/la01_gesv.cpp:135-139 | in either storage order the offset of an in-range (row, col) lies inside the `nrow * ncol` buffer |
| Layout.IndexInjective | nsd/04matrix/code/la01_gesv.cpp:135-139 | distinct in-range (row, col) pairs never share an offset, in either storage order |
| Layout.IndexBijection | nsd/04matrix/code/la04_gesvd.cpp:136-140 | `index` is a bijection between the in-range (row, col) pairs and the offsets `0 .. nrow*ncol-1`, and `Unindex` is its inverse |
| Layout.Set | nsd/04matrix/code/la01_gesv.cpp:116-119 | writing through `operator()` keeps the shape, order and buffer identity and stores the value at (row, col) |
| Layout.GetSet | nsd/04matrix/code/la01_gesv.cpp:112-119 | after a write at (row, col) that element reads back the value and every other element is unchanged |
| Layout.SameElementsSameCells | nsd/04matrix/code/la01_gesv.cpp:135-139 | two matrices of the same shape and order that agree on every element have identical buffers |
| Layout.ResetBuffer | nsd/04matrix/code/la01_gesv.cpp:141-149 | the buffer is null exactly when `nrow * ncol == 0`, otherwise a fresh allocation of that many cells; the storage order is untouched |
| Layout.New | nsd/04matrix/code/la01_gesv.cpp:20-24 | the constructor yields a valid matrix of the requested shape and storage order |
| Layout.AssignVector | nsd/04matrix/code/la01_gesv.cpp:37-55 | `operator=(vector)` fails with `out_of_range` exactly when the length differs from `nrow * ncol`; otherwise element (i, j) is `vec[i * ncol + j]` in either storage order, and shape and buffer are kept |
| Layout.NewFromVector | nsd/04matrix/code/la01_gesv.cpp:26-35 | the vector constructor fails exactly on a length mismatch and otherwise reads the vector in row-major logical order |
| Layout.CopyElements | nsd/04matrix/code/la01_gesv.cpp:62-68 | the element loop of the copy operations makes every element of the target equal to the source's, whatever the two storage orders |
| Layout.CopyConstruct | nsd/04matrix/code/la01_gesv.cpp:57-69 | a deep copy: same shape, order and elements (the same cells), in the freshly allocated block, which is never the source's block |
| Layout.CopyAssign | nsd/04matrix/code/la01_gesv.cpp:71-86 | self-assignment changes nothing; otherwise the target takes the source's shape and every logical element, even across storage orders, but keeps its own storage order; it reallocates only when the shape differs, and a reallocated block is never the source's |
| Layout.MoveConstruct | nsd/04matrix/code/la01_gesv.cpp:88-94 | as written: the new object is 0 x 0 yet holds the source's buffer, and the source keeps its shape with a null buffer |
| Layout.MoveConstructBreaksInvariant | nsd/04matrix/code/la01_gesv.cpp:88-94 | for every non-empty source, both objects left by the move constructor violate the buffer-size invariant |
| Layout.MoveConstructOneByOne | nsd/04matrix/code/la01_gesv.cpp:88-94 | moving a 1 x 1 matrix gives a 0 x 0 object with a buffer and a 1 x 1 object without one |
| Layout.MoveConstructIntended | nsd/04matrix/code/la01_gesv.cpp:88-94 | the corrected move: the new object has the source's shape, order, buffer and elements, and the source is left empty and valid |
| Layout.MoveAssign | nsd/04matrix/code/la01_gesv.cpp:96-105 | self-move changes nothing; otherwise the target becomes the source (shape, buffer, order) and the source is left 0 x 0 with a null buffer, both valid |
| Layout.Destroy | nsd/04matrix/code/la01_gesv.cpp:107-110 | the destructor leaves a valid 0 x 0 matrix with a null buffer |
| Layout.DestroyIdempotent | nsd/04matrix/code/la01_gesv.cpp:107-110 | releasing an already released matrix changes nothing more |
| Layout.LeadingDimensionIsStride | nsd/04matrix/code/la01_gesv.cpp:236-241 | the `lda` passed to LAPACKE (`ncol` for row-major, `nrow` for column-major) is the distance between consecutive rows (row-major) or columns (column-major) in the buffer |
| Layout.StorageOrdersTranspose | nsd/04matrix/code/la01_gesv.cpp:253-256 | a row-major and a column-major matrix with the same elements hold transposed buffers: cell `i*ncol+j` of one is cell `j*nrow+i` of the other |
| Layout.GesvExample | nsd/04matrix/code/la01_gesv.cpp:194-197 | the 3 x 3 system matrix of the `dgesv` demo is valid in either storage order; its row-major buffer is its rows laid end to end and its column-major buffer (what `dgesv` reads) is its columns laid end to end |
| Layout.GesvdExample | nsd/04matrix/code/la04_gesvd.cpp:200-203 | the 3 x 4 matrix of the `dgesvd` demo is a valid column-major matrix with leading dimension 3 whose buffer lists the four columns in order |
| Arith.TiledExtent | nsd/05cache/code/03_matrix_matrix.cpp:510-513 | the `n / T` full tiles cover at most `n`, leave fewer than `T` indices uncovered, and cover all of `n` exactly when `T` divides it |
| CacheMatrix.Set | nsd/05cache/code/03_matrix_matrix.cpp:118-119 | writing through `operator()` stores the value at offset `row * ncol + col` and keeps the shape |
| CacheMatrix.IndexInBounds | nsd/05cache/code/03_matrix_matrix.cpp:143-146 | the row-major offset of an in-range element is inside the buffer, and two in-range elements share an offset exactly when they are the same element |
| CacheMatrix.GetSet | nsd/05cache/code/03_matrix_matrix.cpp:118-119 | a write changes exactly the element written |
| CacheMatrix.SameElementsSameBuffer | nsd/05cache/code/03_matrix_matrix.cpp:143-146 | two matrices of one shape that agree on every element have equal buffers |
| CacheMatrix.New | nsd/05cache/code/03_matrix_matrix.cpp:25-29 | the constructor yields a valid matrix of the requested shape with no recorded flops |
| CacheMatrix.AssignVector | nsd/05cache/code/03_matrix_matrix.cpp:38-56 | `operator=(vector)` fails with `out_of_range` exactly when the length differs from `nrow * ncol`; otherwise the buffer becomes the vector and the shape is kept |
| CacheMatrix.CopyElements | nsd/05cache/code/03_matrix_matrix.cpp:63-69 | the copy loop reproduces the source buffer in a target of the same shape |
| CacheMatrix.CopyConstruct | nsd/05cache/code/03_matrix_matrix.cpp:58-70 | the copy equals the original in shape, elements and flop count |
| CacheMatrix.CopyAssign | nsd/05cache/code/03_matrix_matrix.cpp:72-89 | after assignment (self-assignment included) the target equals the source |
| CacheMatrix.MoveConstruct | nsd/05cache/code/03_matrix_matrix.cpp:91-99 | the new object is the source and the source is left a valid empty 0 x 0 matrix |
| CacheMatrix.MoveAssign | nsd/05cache/code/03_matrix_matrix.cpp:101-111 | self-move changes nothing; otherwise the target becomes the source and the source is left empty |
| CacheMatrix.TransposeInvolution | nsd/05cache/code/03_matrix_matrix.cpp:166-179 | transposing twice gives back the original shape and buffer |
| CacheMatrix.TransposeAsWritten | nsd/05cache/code/03_matrix_matrix.cpp:166-179 | as written: when every write stays in bounds, the result keeps the source's own `nrow x ncol` shape |
| CacheMatrix.TransposeFillSquare | nsd/05cache/code/03_matrix_matrix.cpp:170-176 | as written, on a square matrix every write so far stays in bounds and has put element (i, j) at (j, i) |
| CacheMatrix.TransposeAsWrittenSquare | nsd/05cache/code/03_matrix_matrix.cpp:166-179 | as written, `transpose` of a square matrix is defined and is its transpose |
| CacheMatrix.TransposeAsWrittenWritesPastEnd | nsd/05cache/code/03_matrix_matrix.cpp:166-179 | for a 1 x 3 matrix, the write of element (0, 1) lands at offset 3 of a three-cell result |
| CacheMatrix.Transpose | nsd/05cache/code/03_matrix_matrix.cpp:166-179 | the corrected transpose: for every shape the result is `ncol x nrow` with element (j, i) equal to element (i, j) of the source |
| CacheMatrix.EqualScanSameShape | nsd/05cache/code/03_matrix_matrix.cpp:188-197 | for equal shapes the element loops of `operator==` answer whether all remaining elements agree |
| CacheMatrix.EqualAsWrittenSameShape | nsd/05cache/code/03_matrix_matrix.cpp:181-200 | for equal shapes `operator==` as written compares the buffers |
| CacheMatrix.EqualAsWrittenMixesShapes | nsd/05cache/code/03_matrix_matrix.cpp:183 | as written, a 1 x 2 and a 2 x 1 matrix with the same cells compare equal |
| CacheMatrix.EqualAsWrittenReadsPastEnd | nsd/05cache/code/03_matrix_matrix.cpp:183 | as written, comparing a 2 x 3 with a 2 x 2 matrix passes the shape guard and reads past the end of the smaller buffer |
| CacheMatrix.Equal | nsd/05cache/code/03_matrix_matrix.cpp:181-200 | the corrected `operator==`: true exactly when the shapes and all elements agree |
| CacheMatrix.NotEqualAsWritten | nsd/05cache/code/03_matrix_matrix.cpp:202-205 | as written, `operator!=` negates `operator==` as written; on equal shapes it answers whether some element differs |
| CacheMatrix.NotEqualAsWrittenMixesShapes | nsd/05cache/code/03_matrix_matrix.cpp:202-205 | as written, a 1 x 2 and a 2 x 1 matrix with the same cells are not different |
| CacheMatrix.NotEqual | nsd/05cache/code/03_matrix_matrix.cpp:202-205 | the corrected `operator!=`, negating the corrected `operator==`: true exactly when the shapes or some element differ |
| CacheMatrix.Initialize | nsd/05cache/code/03_matrix_matrix.cpp:541-557 | even rows hold `j` and odd rows hold `ncol - 1 - j`, shape kept |
| MatrixProduct.ValidateMultiplication | nsd/05cache/code/03_matrix_matrix.cpp:211-219 | `out_of_range` exactly when the left operand's column count differs from the right operand's row count |
| MatrixProduct.ProductUnique | nsd/05cache/code/03_matrix_matrix.cpp:602-605 | any two results that are the product have the same shape and buffer, so the comparison against the gold result succeeds |
| MatrixProduct.MultiplyIndirect | nsd/05cache/code/03_matrix_matrix.cpp:270-295 | fails exactly on an inner-dimension mismatch; otherwise returns the product with `nflo = nrow1 * ncol1 * ncol2` |
| MatrixProduct.ZeroFill | nsd/05cache/code/03_matrix_matrix.cpp:310-316 | the zeroing pass of the i-j-k variant makes every element 0 |
| MatrixProduct.MultiplyIndirectOrder1 | nsd/05cache/code/03_matrix_matrix.cpp:302-333 | the i-j-k loop order, accumulating into the result in place, fails exactly on a mismatch and otherwise returns the same product and flop count |
| MatrixProduct.MultiplyDirectAsWritten | nsd/05cache/code/03_matrix_matrix.cpp:338-369 | as written, when every store is in bounds the result has the product's shape |
| MatrixProduct.MultiplyDirectAsWrittenWritesPastEnd | nsd/05cache/code/03_matrix_matrix.cpp:353-364 | for a 2 x 2 times 2 x 1 product, the store for cell (1, 0) lands at offset 2 of a two-cell result |
| MatrixProduct.DirectRowEqualCols | nsd/05cache/code/03_matrix_matrix.cpp:354-362 | as written with `ncol1 == ncol2`, the stores of one row stay in bounds, put each dot product at its own cell and leave every other cell alone |
| MatrixProduct.NextRowKeepsRows | nsd/05cache/code/03_matrix_matrix.cpp:351-363 | a row pass that fills its own row and touches nothing else keeps the rows already computed |
| MatrixProduct.DirectFillEqualCols | nsd/05cache/code/03_matrix_matrix.cpp:351-363 | as written with `ncol1 == ncol2`, every row computed so far holds its dot products |
| MatrixProduct.MultiplyDirectAsWrittenEqualCols | nsd/05cache/code/03_matrix_matrix.cpp:338-369 | as written, `multiply_direct` with `ncol1 == ncol2` is defined and is the product |
| MatrixProduct.DotOfOne | nsd/05cache/code/03_matrix_matrix.cpp:356-360 | with a single inner index the accumulated sum is one product |
| MatrixProduct.MultiplyDirectAsWrittenOverwrites | nsd/05cache/code/03_matrix_matrix.cpp:353-364 | for a 2 x 1 times 1 x 2 product every store is in bounds, but the store for cell (1, 0) overwrites cell (0, 1), so the result is not the product |
| MatrixProduct.MultiplyDirect | nsd/05cache/code/03_matrix_matrix.cpp:338-369 | the corrected direct variant, storing at `i * ncol2 + k`: fails exactly on a mismatch and otherwise returns the product for every shape |
| MatrixProduct.BlockSet | nsd/05cache/code/03_matrix_matrix.cpp:376-377 | a tile write keeps the tile's `T * T` size |
| MatrixProduct.BlockGetSet | nsd/05cache/code/03_matrix_matrix.cpp:376-377 | a tile write changes exactly the tile element written |
| MatrixProduct.BlockFill | nsd/05cache/code/03_matrix_matrix.cpp:379-383 | `Block::operator=(double)` gives a `T * T` tile whose every cell is the value |
| MatrixProduct.BlockAddGet | nsd/05cache/code/03_matrix_matrix.cpp:385-389 | `Block::operator+=` adds element by element |
| MatrixProduct.Load | nsd/05cache/code/03_matrix_matrix.cpp:431-471 | `Tiler::load` copies tile (it1, jt1) of the left operand as is, and tile (it2, jt2) of the right operand transposed |
| MatrixProduct.TileMultiply | nsd/05cache/code/03_matrix_matrix.cpp:473-491 | `Tiler::multiply` sets every result-tile element to the dot product of a row of the first tile with a row of the stored-transposed second tile, and keeps the operand tiles |
| MatrixProduct.Save | nsd/05cache/code/03_matrix_matrix.cpp:396-412 | `Block::save` writes the tile into tile (it, jt) of the matrix and leaves every other element unchanged |
| MatrixProduct.TileDotExtendsDot | nsd/05cache/code/03_matrix_matrix.cpp:525-530 | the dot product of a loaded tile pair extends the reference sum by that tile's span of the inner dimension |
| MatrixProduct.AccumulateCell | nsd/05cache/code/03_matrix_matrix.cpp:525-530 | adding one tile pair's product to a cell's running sum extends it by `T` inner terms |
| MatrixProduct.AddTileProduct | nsd/05cache/code/03_matrix_matrix.cpp:527-529 | one pass of load, multiply and `+=` advances every cell of the result tile by one tile of the inner dimension |
| MatrixProduct.ResultTile | nsd/05cache/code/03_matrix_matrix.cpp:524-530 | the accumulated tile is the reference product of its cells over the inner indices that full tiles cover |
| MatrixProduct.TileRow | nsd/05cache/code/03_matrix_matrix.cpp:522-532 | one tile row of the result is computed and saved, and nothing outside it changes |
| MatrixProduct.TileRows | nsd/05cache/code/03_matrix_matrix.cpp:520-533 | every cell covered by full result tiles holds the product truncated to the covered inner indices |
| MatrixProduct.MultiplyTile | nsd/05cache/code/03_matrix_matrix.cpp:496-539 | fails exactly on a mismatch; otherwise the covered cells hold the truncated product, the flop count is set, and the result is the full product when `T` divides every dimension |
| PolyFit.PowAdd | nsd/11arraydesign/code/data_prep.cpp:39 | `x^(i+j) = x^i * x^j`, which makes the power sums the Gram entries |
| PolyFit.NormalIsGram | nsd/11arraydesign/code/data_prep.cpp:31-42 | the entry sum of `x^(i+j)` equals the dot product of the Vandermonde columns `x^i` and `x^j` (the matrix is VᵀV) |
| PolyFit.NormalMatrix | nsd/11arraydesign/code/data_prep.cpp:27-42 | the `(order+1)`-square matrix has entry (i, j) the sum of `x^(i+j)` over all samples; it is symmetric and constant along anti-diagonals |
| PolyFit.Rhs | nsd/11arraydesign/code/data_prep.cpp:46-54 | entry j of the right-hand side is the sum of `x^j * y` over all samples |
| PolyFit.Reverse | nsd/11arraydesign/code/data_prep.cpp:58 | `std::reverse` keeps the length and puts element `n-1-i` at position i |
| PolyFit.ReverseInvolution | nsd/11arraydesign/code/data_prep.cpp:58 | reversing twice gives the original coefficients |
| PolyFit.ReverseIsDescending | nsd/11arraydesign/code/data_prep.cpp:57-58 | the reversed solution, read highest power first (the numpy `poly1d` convention), is the same polynomial as the solver's lowest-power-first solution |
| PolyFit.FitPoly | nsd/11arraydesign/code/data_prep.cpp:19-61 | `runtime_error` exactly when the sample counts differ; otherwise the solver's failure is propagated, or its solution is returned reversed |
| PolyFit.FirstAtLeast | nsd/11arraydesign/code/data_prep.cpp:89-92 | the scan stops at the first sample from `start` on that reaches the bound, or at the end |
| PolyFit.ScanStop | nsd/11arraydesign/code/data_prep.cpp:89-92 | the scanning loop finds exactly that first index |
| PolyFit.SlicesPartition | nsd/11arraydesign/code/data_prep.cpp:81-104 | the batches of iterations `0 .. n-1`, laid end to end, are exactly the prefix of the samples up to where batch `n` starts: no sample is skipped or repeated |
| PolyFit.SortedStop | nsd/11arraydesign/code/data_prep.cpp:89-92 | on sorted samples a sample lies before batch `it`'s stop exactly when it is below `it + 1` |
| PolyFit.SortedSliceIsInterval | nsd/11arraydesign/code/data_prep.cpp:96-97 | on sorted non-negative samples, batch `it` holds exactly the samples in `[it, it+1)` |
| PolyFit.Min | nsd/11arraydesign/code/data_prep.cpp:75 | `min_element` yields a sample no larger than any other |
| PolyFit.Max | nsd/11arraydesign/code/data_prep.cpp:76 | `max_element` yields a sample no smaller than any other |
| PolyFit.Xmax | nsd/11arraydesign/code/data_prep.cpp:75-76 | `ceil` of the largest sample is at least `xmin` and bounds every sample |
| PolyFit.RowWritesInRange | nsd/11arraydesign/code/data_prep.cpp:77-101 | all `xmax` row writes fall inside the `xmax - xmin` result rows exactly when `xmin` is 0 |
| PolyFit.FitSlice | nsd/11arraydesign/code/data_prep.cpp:89-101 | one iteration scans to where the next batch starts and fits exactly batch `it` |
| PolyFit.FitRows | nsd/11arraydesign/code/data_prep.cpp:78-104 | the loop succeeds exactly when every batch fit does; row `it` is batch `it`'s fit, rows past `xmax` keep the zero fill, and an error is some batch's error |
| PolyFit.FitPolys | nsd/11arraydesign/code/data_prep.cpp:70-107 | `fit_polys` returns `xmax - xmin` rows, row `it` being the fit of the samples in batch `it`, or the error of a failing batch |
| ByteCounting.HoldersSet | nsd/07mem/code/alloc.cpp:37-47 | repointing one counter moves it from its old impl's holders to the new impl's holders |
| ByteCounting.Incref | nsd/07mem/code/alloc.cpp:90 | `incref` raises one impl's count by one and changes nothing else |
| ByteCounting.Decref | nsd/07mem/code/alloc.cpp:92-107 | `decref` on a null counter does nothing; otherwise the last reference deletes the impl and any other lowers its count, other impls and counters untouched |
| ByteCounting.Construct | nsd/07mem/code/alloc.cpp:29-31 | the default constructor gives a counter with a fresh impl of zero totals and count 1, shared with no existing counter |
| ByteCounting.CopyConstruct | nsd/07mem/code/alloc.cpp:33-35 | the copy (and the move, which copies) shares the other's impl and raises its count by one |
| ByteCounting.SharedCountAtLeastTwo | nsd/07mem/code/alloc.cpp:9-16 | under the invariant, an impl shared by two counters has a count of at least 2 |
| ByteCounting.DecrefSparesOther | nsd/07mem/code/alloc.cpp:92-107 | releasing one counter never deletes the impl of another live counter |
| ByteCounting.CopyAssign | nsd/07mem/code/alloc.cpp:37-47 | self-assignment changes nothing; otherwise the counter shares the other's impl, and its old impl is deleted exactly when it was the last reference |
| ByteCounting.Destroy | nsd/07mem/code/alloc.cpp:65 | the destructor removes the counter and deletes its impl exactly when it was the last reference |
| ByteCounting.Swap | nsd/07mem/code/alloc.cpp:67-70 | `swap` exchanges the two counters' impls and nothing else |
| ByteCounting.Increase | nsd/07mem/code/alloc.cpp:72-75 | `increase` adds to `allocated` (mod 2^64) for every counter sharing the impl and for no other |
| ByteCounting.Decrease | nsd/07mem/code/alloc.cpp:77-80 | `decrease` adds to `deallocated` (mod 2^64) for every counter sharing the impl and for no other |
| ByteCounting.ConstructKeepsInv | nsd/07mem/code/alloc.cpp:29-31 | construction preserves "every impl's count equals its number of counters" |
| ByteCounting.CopyConstructKeepsInv | nsd/07mem/code/alloc.cpp:33-35 | copy construction preserves the reference-count invariant |
| ByteCounting.CopyAssignKeepsInv | nsd/07mem/code/alloc.cpp:37-63 | copy and move assignment preserve the reference-count invariant |
| ByteCounting.DestroyKeepsInv | nsd/07mem/code/alloc.cpp:65 | destruction preserves the reference-count invariant |
| ByteCounting.SwapKeepsInv | nsd/07mem/code/alloc.cpp:67-70 | `swap` preserves the reference-count invariant |
| ByteCounting.IncreaseDecreaseRestoresBytes | nsd/07mem/code/alloc.cpp:72-82 | increasing then decreasing by the same amount leaves `bytes()` unchanged, even across wrap-around |
| ByteCounting.WrapDifference | nsd/07mem/code/alloc.cpp:82 | `bytes()` computed in `size_t` is unaffected by adding the same amount to both totals |
| ByteCounting.NewAllocator | nsd/07mem/code/alloc.cpp:134 | a default allocator has a live counter at zero bytes with count 1, compares unequal to every existing allocator, and keeps the reference-count invariant |
| ByteCounting.ConvertAllocator | nsd/07mem/code/alloc.cpp:136-140 | the converting constructor shares the other allocator's counter (raising its count by one), deletes the impl it first made, and compares equal to the other both ways |
| ByteCounting.ConvertAllocatorKeepsInv | nsd/07mem/code/alloc.cpp:136-140 | the converting constructor keeps the reference-count invariant |
| ByteCounting.Allocate | nsd/07mem/code/alloc.cpp:142-159 | `bad_alloc` exactly when `n > SIZE_MAX / sizeof(T)` or `malloc` fails; otherwise `n * sizeof(T)` does not overflow and is added to `allocated`, and the reference-count invariant is kept |
| ByteCounting.NoOverflow | nsd/07mem/code/alloc.cpp:144-148 | the guard guarantees that `n * sizeof(T)` fits in `size_t` |
| ByteCounting.Deallocate | nsd/07mem/code/alloc.cpp:161-167 | `deallocate` adds `n * sizeof(T)` (mod 2^64) to `deallocated`, leaves `allocated` alone and keeps the reference-count invariant |
| ByteCounting.AllocateDeallocateRestoresBytes | nsd/07mem/code/alloc.cpp:142-167 | a successful `allocate(n)` followed by `deallocate(p, n)` leaves `bytes()` where it was |
| Growable.New | writing/2018/cpp11_set/code/move1.cpp:9-12 | the constructor records size and capacity unchecked; the storage is consistent exactly when `size <= reserved` |
| Growable.Copy | writing/2018/cpp11_set/code/move1.cpp:13-19 | the copy constructor gives the same size, capacity and elements in use |
| Growable.Append | writing/2018/cpp11_set/code/move1.cpp:24-35 | the elements in use become the old ones followed by `v`; the capacity is kept while there is room and becomes `(size+1)*2` otherwise |
| Growable.Extend | writing/2018/cpp11_set/code/move1.cpp:38-43 | the returned storage holds the argument's elements followed by a copy of its last one |
| Growable.ExtendExample | writing/2018/cpp11_set/code/move1.cpp:45-60 | `Storage(2, 4)` extended has size 3 in the same capacity 4, its third element equal to the second |

## Left out

- Floating point: elements and samples are `real` (exact). `pow` and the
  sums are exact, so rounding and the summation order's effect on rounding
  are not modelled. `CacheMatrix` elements are `int`, which is exact for
  the integer-valued inputs the program builds.
- LAPACK and xtensor-linalg: `dgesv`, `dgesvd` and `xt::linalg::solve` are
  foreign code. The solver in `PolyFit` is a function parameter that either
  solves or fails with a status.
- Timing, output and drivers: `StopWatch`, `elapsed`, gflops reporting,
  `operator<<`, `main` drivers, `multiply_mkl`, `time_tile` and the
  `PYBIND11` wrapping block are I/O, clock or foreign code.
- Addresses and memory: heap addresses returned by `new` and `malloc` are
  parameters. Uninitialised memory from `new double[n]` and `new int[n]` is
  modelled as zeros, and no contract depends on it. Accessors that expose
  raw pointers (`data()`, `buffer()`, `buffer_vector()`) are left out.
- `malloc` success is a parameter of `ByteCounting.Allocate`; the returned
  pointer is not modelled, and neither is `free`.
- `std::atomic` totals in `ByteCounterImpl` are plain words: the model has
  no concurrency. The reference count is an unbounded `nat`.
- Layout, CacheMatrix: `nrow * ncol` and the other dimension products are
  unbounded integers. `size_t` overflow of a matrix size is not modelled.
- Growable.Append: `(size + 1) * 2` is an unbounded integer, so
  `size_t` overflow of the new capacity is not modelled.
- Growable.Extend: requires a non-empty storage. The source reads
  `data[size - 1]`, which for size 0 is outside the buffer.
- PolyFit.FitPolys: requires non-empty, non-negative, equally long
  samples, and requires `xmin` (the floor of the smallest sample) to be 0.
  When `xmin > 0` the source writes rows `xmin .. xmax-1` past the end of
  its `xmax - xmin` row result (undefined behaviour).
  `PolyFit.RowWritesInRange` proves exactly when that happens. Sample
  values `>= xmax` belong to no batch and are never fitted; `FitRows`
  states which samples each row uses.
- Layout.CopyAssign: when the shapes agree the target keeps its own block.
  That this block is not the source's holds only because distinct objects
  own distinct blocks, which the model does not track, so the contract
  states distinctness only for a reallocated block.
- MatrixProduct.MultiplyTile: for dimensions that are not multiples of the
  tile size, the result cells outside the full tiles are whatever the
  result's constructor left there (indeterminate in the source), and the
  contract says nothing about them.
- MatrixProduct.Load: the source also uses the result tile as scratch while
  transposing. The contract does not describe that scratch content, which
  `multiply` overwrites straight after.

## Findings

| source | as written | input that shows it | evidently intended | confidence | as-written member | corrected member |
|---|---|---|---|---|---|---|
| nsd/04matrix/code/la01_gesv.cpp:88-94 (same in la04_gesvd.cpp:89-95) | the move constructor copies the shape, then calls `reset_buffer(0, 0)`, which zeroes it again, and swaps only the buffers | moving a 1 x 1 matrix leaves a 0 x 0 matrix that owns a buffer and a 1 x 1 matrix with a null buffer | the new matrix takes the shape and the buffer; the source is left empty | high, not executed | Layout.MoveConstructOneByOne | Layout.MoveConstructIntended |
| nsd/05cache/code/03_matrix_matrix.cpp:183 | the shape guard of `operator==` is `ncol1 != ncol2 && nrow1 != ncol2` | a 1 x 2 and a 2 x 1 matrix with cells `[x, y]` compare equal; a 2 x 3 against a 2 x 2 matrix reads past the end of the smaller buffer | return false when `nrow1 != nrow2 \|\| ncol1 != ncol2` | high, not executed | CacheMatrix.EqualAsWrittenMixesShapes | CacheMatrix.Equal |
| nsd/05cache/code/03_matrix_matrix.cpp:202-205 | `operator!=` negates the `operator==` above and inherits its shape guard | a 1 x 2 and a 2 x 1 matrix with cells `[x, y]` are reported not different | true when the shapes differ | high, not executed | CacheMatrix.NotEqualAsWrittenMixesShapes | CacheMatrix.NotEqual |
| nsd/05cache/code/03_matrix_matrix.cpp:168-176 | `transpose` allocates the result as `nrow x ncol` and writes `ret(j, i)` | for a 1 x 3 matrix, the write of element (0, 1) lands at offset 3 of a three-cell buffer | allocate `ncol x nrow` | high, not executed | CacheMatrix.TransposeAsWrittenWritesPastEnd | CacheMatrix.Transpose |
| nsd/05cache/code/03_matrix_matrix.cpp:353-364 | `multiply_direct` stores cell (i, k) at `i * ncol1 + k`, the left operand's row offset | for a 2 x 2 times 2 x 1 product, cell (1, 0) is stored at offset 2 of a two-cell result | store at `i * ncol2 + k` | high, not executed | MatrixProduct.MultiplyDirectAsWrittenWritesPastEnd | MatrixProduct.MultiplyDirect |
| nsd/05cache/code/03_matrix_matrix.cpp:353-364 | the same store offset when `ncol1 < ncol2` stays in bounds but lands on another cell | for a 2 x 1 matrix `[x, y]` (x != y) times the 1 x 2 matrix `[1, 1]`, cell (1, 0) is stored over cell (0, 1), which ends up `y` instead of `x` | store at `i * ncol2 + k` | high, not executed | MatrixProduct.MultiplyDirectAsWrittenOverwrites | MatrixProduct.MultiplyDirect |
