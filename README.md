# MMatrix in Dafny

A model of `MMatrix<T>` from chisolm/MMatrix (`mmatrix.hpp`). It is a dense
matrix stored row-major in one `std::vector`: element `(i, j)` lives at flat
offset `i * cols + j`. The model covers:

- both constructors;
- the `rows()` and `cols()` accessors;
- assignment from an initializer list, which silently truncates;
- the unchecked element access `operator()`, const and non-const;
- the dimension-checked product `operator*` with its `i, k, j` loop order, and the compound `operator*=`;
- `transpose()` and `dim_string()`.

The element type `T` is `int`, so every sum and product is exact.

The project has four modules:

- `Decimal` (decimal.dfy): the decimal rendering that `std::to_string`
  produces for the dimensions, together with a parser. The parser shows that
  the rendering can be read back unambiguously.
- `DenseMath` (densemath.dfy): what a matrix means, independent of storage.
  It gives the row-major view `RowMajor` of a storage vector and its inverse
  `Flatten`, the sum-of-products product `MatMul` and the transpose
  `Transposed`.
- `Kernel` (kernel.dfy): the three nested loops of `operator*` as ghost
  functions, one per loop (`InnerLoop`, `MiddleLoop`, `OuterLoop`). Output
  row `i` starts at flat offset `i * stride`. `InnerLoop` and `MiddleLoop`
  carry a closed form of the accumulator after `n` passes as their
  postconditions. `OuterLoop` only promises the size of the accumulator; its
  closed form holds for the row-major stride only and is the lemma
  `OuterLoopEntry`.
- `MMatrix` (mmatrix.dfy): the class `Matrix`, with fields `rows`, `cols` and
  `vec`. Its methods update those fields in place. Multiplication is a
  sequence of loops (`Accumulate`, `AccumulateRow`, `AddScaledRow`), each
  proved against the `Kernel` function for its loop.

`operator*` as written starts output row `i` at `i * lhs.rows_`
(mmatrix.hpp:72), not at the row-major offset `i * rhs.cols_`. The two
strides give the same output in these cases (`Kernel.StridesAgree`, proved
by `Kernel.AsWrittenAgrees`):

- `lhs.rows == rhs.cols`;
- `lhs.rows <= 1`, because the only output row starts at offset 0 either way;
- `lhs.cols == 0` or `rhs.cols == 0`, because nothing is written.

The model keeps the code as written:

- `Multiply` takes stride `lhs.rows`.
- Its precondition is that every write stays inside the result. Otherwise the
  source writes outside the vector, which is undefined behaviour.
- Its product property is proved under `StridesAgree`.

The rest of the source shows that the row-major offset is meant:

- the result is allocated as `lhs.rows_ x rhs.cols_` (mmatrix.hpp:56);
- `ic = i * lhs.cols_` and `kc = k * rhs.cols_` use row-major strides
  (mmatrix.hpp:73, 76);
- the driver compares `mma * mmb` with Eigen's product
  (mmatrix_test.cpp:225).

The driver's operands are both `m_size x n_size` (mmatrix_test.cpp:208-209),
so a product it can form is square and the two strides agree there.
`MultiplyRowMajor` is the same kernel with the row-major stride, and it
computes the product for every compatible shape. The difference is recorded
under Findings.

## Model

| member | source | states |
|---|---|---|
| Decimal.NatToString | mmatrix.hpp:123-127 | `std::to_string` of an unsigned value is non-empty, all digits, and starts with '0' only when it is "0", the text of zero |
| Decimal.ValueOfNatToString | mmatrix.hpp:123-127 | the decimal digits of n have value n |
| Decimal.ParseNatToString | mmatrix.hpp:123-127 | a rendered number followed by any non-digit text parses back to that number and that text |
| DenseMath.RowMajor | mmatrix.hpp:35-44 | storage of size r*c read row-major is an r x c grid whose row i is the slice starting at i*c |
| DenseMath.RowMajorAt | mmatrix.hpp:35-44 | element (i, j) of the grid is vec[i*c + j], and that offset is inside the storage |
| DenseMath.RowMajorIndexBound | mmatrix.hpp:35-44 | for i < r and j < c the offset i*c + j is below r*c |
| DenseMath.RowMajorIndexInjective | mmatrix.hpp:35-44 | distinct (i, j) with j < c have distinct offsets i*c + j |
| DenseMath.FlattenRowMajor | mmatrix.hpp:10-12 | reading storage as rows and concatenating them gives back the storage |
| DenseMath.RowMajorFlatten | mmatrix.hpp:10-12 | concatenating the rows of an r x c grid and reading them back gives the grid |
| DenseMath.RowMajorInjective | mmatrix.hpp:10-12 | two storage vectors of one shape that hold the same grid are equal |
| DenseMath.RowMajorUpdate | mmatrix.hpp:35-39 | writing offset i*c + j changes element (i, j) of the grid to x and no other element |
| DenseMath.TransposeTwice | mmatrix_test.cpp:183-184 | transposing an r x c grid twice gives it back, also for non-square shapes |
| DenseMath.DemoProduct | mmatrix_test.cpp:163-177 | [[1,2,3],[4,5,6]] times [[7,10],[8,11],[9,12]] is [[50,68],[122,167]] |
| Kernel.DemoKernelProduct | mmatrix_test.cpp:163-177 | the as-written kernel of operator* on that example stays in bounds and returns the storage [50,68,122,167] |
| Kernel.WritesInBoundsIff | mmatrix.hpp:70-81 | every write of the kernel stays inside the lrows x rcols result iff some dimension is zero or the last row's last write does |
| Kernel.RowMajorStrideInBounds | mmatrix.hpp:70-81 | with output rows rcols apart every write is in bounds |
| Kernel.AsWrittenInBoundsIff | mmatrix.hpp:72 | with output rows lhs.rows apart the writes stay in bounds iff some dimension is zero or lhs.rows <= rhs.cols |
| Kernel.InnerLoop | mmatrix.hpp:77-79 | after n passes of the j loop, acc[ir + j] has gained a * rv[kc + j] for j < n and nothing else changed |
| Kernel.MiddleLoop | mmatrix.hpp:75-80 | after m passes of the k loop, output row ir gained the first m terms of each sum of products and nothing else changed |
| Kernel.MiddleLoopRowEntry | mmatrix.hpp:75-80 | the k loop for output row i adds RowDot to element (i2, j) when i2 == i and leaves it unchanged otherwise |
| Kernel.OuterLoop | mmatrix.hpp:70-81 | after n passes of the i loop the accumulator still has the lrows*rcols elements of the zero result it starts from |
| Kernel.KernelOutput | mmatrix.hpp:82 | the vector operator* returns holds lhs.rows*rhs.cols elements |
| Kernel.OuterLoopStep | mmatrix.hpp:70-81 | with row-major stride, pass q of the i loop adds the full sum of products to row q and leaves the other rows alone |
| Kernel.OuterLoopEntry | mmatrix.hpp:70-81 | with row-major stride, after n passes of the i loop the rows below n hold their sums of products and the others are zero |
| Kernel.PartialSums | mmatrix.hpp:70-81 | with row-major stride, after k passes of the k loop for row i, earlier rows are complete, row i holds the sums over the first k terms, later rows are zero |
| Kernel.RowDotIsDot | mmatrix.hpp:73-78 | the terms the kernel adds into (i, j) are the terms of sum over k of lhs(i, k) * rhs(k, j) |
| Kernel.KernelComputesProduct | mmatrix.hpp:70-81 | with output rows rhs.cols apart the kernel's output, read row-major, is the matrix product |
| Kernel.NoColumnsNoWrites | mmatrix.hpp:70-81 | with lhs.cols == 0 the k loop never runs: the writes are in bounds and the result stays zero, whatever the stride |
| Kernel.AsWrittenAgrees | mmatrix.hpp:72 | the stride lhs.rows is in bounds and gives the same output as stride rhs.cols when lhs.rows == rhs.cols, lhs.rows <= 1, lhs.cols == 0 or rhs.cols == 0 |
| Kernel.AsWrittenComputesProduct | mmatrix.hpp:70-81 | with the stride as written the kernel computes the product in each of those cases |
| Kernel.AsWrittenOverrun | mmatrix.hpp:72 | 2x1 times 1x1 writes row 1 at offset 2 of a 2-element result |
| Kernel.AsWrittenOverlap | mmatrix.hpp:72 | a 2x1 of ones times a 1x3 of ones yields storage [1,1,2,1,1,0], whereas the product is all ones |
| MMatrix.ParseDimText | mmatrix.hpp:123-127 | "<rows>x<cols>" followed by non-digit text reads back as the shape and that text |
| MMatrix.DimText | mmatrix.hpp:125 | "<rows>x<cols>" reads back as exactly (rows, cols) with no text left over |
| MMatrix.MismatchMessage | mmatrix.hpp:50-52 | the out_of_range message names both operands' shapes, which read back from it in order |
| MMatrix.CopyPrefix | mmatrix.hpp:28-31 | assignment from a list keeps the size; place p takes list element p when the list is longer than p, and keeps its value otherwise |
| MMatrix.CopyPrefixLongList | mmatrix.hpp:28-31 | a list at least as long as the storage replaces it by the list's leading values |
| MMatrix.CopyPrefixIdempotent | mmatrix.hpp:28-31 | assigning the same list twice is the same as assigning it once |
| MMatrix.AssignedElement | mmatrix.hpp:28-31 | element (i, j) takes a[i*c + j] when the list reaches that offset and keeps its value otherwise |
| MMatrix.Matrix.Empty | mmatrix.hpp:15 | the default constructor gives the 0x0 matrix with empty storage |
| MMatrix.Matrix.constructor | mmatrix.hpp:16-19 | an r x c matrix with r*c elements, every one equal to t (default 0) |
| MMatrix.Matrix.Rows | mmatrix.hpp:22 | rows() is the row count; times cols it is the storage size |
| MMatrix.Matrix.Cols | mmatrix.hpp:23 | cols() is the column count; rows times it is the storage size |
| MMatrix.Matrix.DimString | mmatrix.hpp:123-127 | dim_string() is "<rows>x<cols>" and the shape reads back from it |
| MMatrix.Matrix.Assign | mmatrix.hpp:28-31 | operator= from a list leaves the shape unchanged and sets the storage to CopyPrefix(old storage, list) |
| MMatrix.Matrix.At | mmatrix.hpp:40-44 | the const operator() returns element (row, col) of the row-major grid |
| MMatrix.Matrix.Set | mmatrix.hpp:35-39 | writing through operator() replaces vec[cols*row + col], so element (row, col) and nothing else |
| MMatrix.Matrix.Transpose | mmatrix.hpp:111-121 | a fresh cols x rows matrix whose grid is the transpose of this one's |
| MMatrix.Matrix.MulAssign | mmatrix.hpp:84-88 | on a mismatch: the error message and this matrix unchanged; otherwise this matrix takes the kernel output's shape and storage, which is the product under StridesAgree |
| MMatrix.AddScaledRow | mmatrix.hpp:77-79 | the j loop leaves the storage equal to InnerLoop of the old storage |
| MMatrix.AccumulateRow | mmatrix.hpp:75-80 | the k loop for one output row leaves the storage equal to MiddleLoop of the old storage |
| MMatrix.Accumulate | mmatrix.hpp:70-81 | the i, k, j loops turn the zero result into KernelOutput for the given stride |
| MMatrix.Multiply | mmatrix.hpp:48-83 | a mismatch gives the error with its message; otherwise a fresh lhs.rows x rhs.cols matrix holding the as-written kernel output, which is the product under StridesAgree |
| MMatrix.MultiplyRowMajor | mmatrix.hpp:48-83 | the same with output rows rhs.cols apart: the product for every compatible shape |

## Left out

- `operator+` and `operator+=` (mmatrix.hpp:91-108) are not modelled. `operator+` reads `this(j, i)` (mmatrix.hpp:96), the transposed element, and `operator+=` reads `this(i, j)` (mmatrix.hpp:104). Both apply the call operator to the pointer `this`, which is ill-formed C++. The templates compile only because they are never instantiated.
- `operator<<` (mmatrix.hpp:129-138) is stream output and is not modelled. `dim_string()`, which it prints, is modelled.
- The benchmark and test driver mmatrix_test.cpp is not modelled: option parsing, timing, random fill and the comparison with another library. Its worked 2x3 by 3x2 example is stated by `DenseMath.DemoProduct` and, through the kernel as written, by `Kernel.DemoKernelProduct`.
- Kernel.OuterLoop: its own contract states only the size of the accumulator. Its entries for the row-major stride are the lemma `OuterLoopEntry`. For the stride as written they are stated only where the strides agree (`AsWrittenAgrees`) and by the two worked examples, because with overlapping rows an entry sums the writes of several rows.
- Kernel.KernelOutput: the same; its entries are stated by `KernelComputesProduct` and `AsWrittenComputesProduct`.
- `T` is `int`, not a floating-point type. Rounding is outside the model.
- `rows_` and `cols_` are `unsigned` in the source. The model uses unbounded `nat`, so the 32-bit wrap-around of `r * c` and of the index products is not modelled.
- The `std::out_of_range` exception of `operator*` is the `Err` case of a `Result`.
- MMatrix.Matrix.At: the precondition `row < rows && col < cols` is the bounds check left commented out at mmatrix.hpp:41-42. The source accepts any pair whose flat offset `cols * row + col` is inside the vector, such as `(0, cols)`, which reads element `(1, 0)`; the model excludes those pairs. Only an offset at or past `vec.size()` is undefined behaviour.
- MMatrix.Matrix.Set: the same precondition, from the check commented out at mmatrix.hpp:36-37; a write through `(0, cols)` lands on element `(1, 0)` in the source.
- `MMatrix.Multiply`: writes outside the result vector are undefined behaviour, so in-bounds writes are a precondition. Outside `StridesAgree` the contract states the output as `KernelOutput` with stride `lhs.rows`, not as the product, because the code does not compute the product then.
- `MMatrix.Matrix.MulAssign`: it calls the as-written `Multiply`, as `operator*=` calls `operator*`, so it inherits the same precondition and the product only under `StridesAgree`.
- The non-const `operator()` returns a reference. The model writes through it with `Set` and reads through it with `At`; the reference is not a value in the model.
- `operator=` returns `*this` for chaining; `Assign` returns nothing.

## Findings

| source | as written | input that shows it | evidently intended | confidence | as-written member | corrected member |
|---|---|---|---|---|---|---|
| mmatrix.hpp:72 | `ir = i * lhs.rows_` puts output row i at offset i * lhs.rows | any shapes with 2 <= lhs.rows != rhs.cols and nonzero lhs.cols and rhs.cols; for example 2x1 of ones times 1x3 of ones gives storage [1,1,2,1,1,0], not all ones, and 2x1 times 1x1 writes offset 2 of a 2-element vector | `ir = i * rhs.cols_`, the row-major offset of output row i | high, not executed | Kernel.AsWrittenOverlap | MMatrix.MultiplyRowMajor |
