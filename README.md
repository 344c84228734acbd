# The Collection (`tc`): views and linear-algebra kernels, in Dafny

This project models the header-only C++ library `tc`:

- its non-owning views over caller-owned contiguous memory:
  - `array_view`, 0-indexed;
  - `vector_view`, 1-indexed;
  - `matrix_view`, 1-indexed and row-major;
- the loop kernels that read and write through those views (`matrix_ops`, `vector_ops`, `mv_ops`);
- the bit utilities of `binary_util`.

Each part keeps the source's own form:

- **Views.** `array_view` and `vector_view` are classes, because `shrink_back` and `shrink_front` change their pointer and size in place. `matrix_view`, whose fields never change after construction, is a datatype.
- **Pointers.** A pointer is a backing `array?<int>` plus a position in it, with `null` for `nullptr`. A reference to an element is its position.
- **Kernels.** The kernels are methods with the source's loops. Each kernel that writes promises that nothing of the output buffer outside the output window changes. What the kernels compute is stated as follows:
  - Against pure reference definitions in `Algebra`:
    - the vector kernels `v_esum` (`Sum`), `v_fill` (`Fill`), `v_fn` (`Map`), `sv_mul` (`Scale`), `vs_mul` (`ScaleBy`), `vv_add` (`Add`), `vv_sub` (`Sub`), `vv_hprod` (`HProd`), `vv_cprod` (`Cross`) and `vv_dprod` (`Dot`);
    - `m_fill` (`Fill`);
    - the products `mm_mul`, `mv_mul`, `mv_tmul` and `vm_mul`, each entry being the `Dot` of a row or a column.
  - Entry by entry, over `Get`: `m_cpy`, `m_fn`, `mm_add`, `mm_sub`, `mm_hprod`, `ms_mul`, `sm_mul`, `m_trn` and `vv_mprod`. For `m_fn`, the lemma `MatrixViews.EntrywiseMapIsFlatMap` restates the result as `Map` over the elements in memory order.
  - `v_cpy`: its output's elements equal the input's elements as they were on entry.
- **Bit values.** A value of an integer type `T` is an `int` in the range of `T`. Its object representation is its two's-complement bit pattern. Shifts and conversions follow C++20: right shifts are arithmetic, and conversions are taken modulo `2^width`.

How the source is read:

- **Debug assertions.** The `#ifdef _DEBUG` shape assertions become preconditions.
- **Element access in kernels.** A kernel's `v(i)` is the 1-indexed subscript of `vector_view`, and `m(i, j)` is `matrix_view::operator()`.
- **Element type.** Elements are integers, not `double`.
- **Three statements that do not compile.** Each is read as its evident intent:
  - `mm_mul`'s accumulation lacks its `;`.
  - `sm_mul` loops over `lhs.rows()` / `lhs.columns()` of the scalar; the loops are read as running over `rhs`.
  - `v_esum` has `result; += in(i);`, read as `result += in(i);`.
- **Offsets.** The only offset computation in these headers is `matrix_view`'s row-major `(r - 1) * columns + (c - 1)`.
- **Checked access.** `array_view::at` refuses exactly `i >= size()`. `vector_view::at` and `matrix_view::at` also refuse indices that `operator[]` and `operator()` address; see "Findings".

## Model

| member | source | states |
|---|---|---|
| ArrayViews.ArrayView.Elements | include/tc/array_view.hpp:259-263 | the viewed window holds `size()` elements, element `i` being `operator[](i)` |
| ArrayViews.ArrayView.constructor | include/tc/array_view.hpp:51-55 | the default view has a null pointer and size 0, and is empty |
| ArrayViews.ArrayView.FromPointer | include/tc/array_view.hpp:64-71 | the view holds exactly the given pointer and size |
| ArrayViews.ArrayView.FromRange | include/tc/array_view.hpp:77-90 | size is `end - begin`; the pointer is null exactly when the range is empty; the view shows the range's elements |
| ArrayViews.ArrayView.FromContainer | include/tc/array_view.hpp:96-102 | the view shows the whole container (`std::data`, `std::size`) |
| ArrayViews.ArrayView.Ref | include/tc/array_view.hpp:118-124 | unchecked `operator[](i)` on `i < size()` addresses a position inside the window |
| ArrayViews.ArrayView.At | include/tc/array_view.hpp:128-137 | fails with "index out of bounds" exactly when `i >= size()`; otherwise the same element as `operator[](i)` |
| ArrayViews.ArrayView.Front | include/tc/array_view.hpp:205-209 | on a non-empty view, `front()` is element 0 |
| ArrayViews.ArrayView.Back | include/tc/array_view.hpp:140-144 | on a non-empty view, `back()` is element `size() - 1` |
| ArrayViews.ArrayView.Begin | include/tc/array_view.hpp:147-151 | `begin()` is element 0 when there is one |
| ArrayViews.ArrayView.End | include/tc/array_view.hpp:198-202 | `end() - begin() == size()`, and `end()` stays inside the buffer |
| ArrayViews.ArrayView.Size | include/tc/array_view.hpp:248-252 | `size()` is the number of viewed elements |
| ArrayViews.ArrayView.Empty | include/tc/array_view.hpp:191-195 | `empty()` holds exactly when the view shows no elements, i.e. `size() == 0` |
| ArrayViews.ArrayView.ShrinkBack | include/tc/array_view.hpp:229-235 | size drops by `count`, the pointer stays, the view is the old view's prefix, every remaining element is the same element |
| ArrayViews.ArrayView.ShrinkFront | include/tc/array_view.hpp:238-245 | the pointer advances by `count` and size drops by `count`: new element `i` is old element `i + count` |
| VectorViews.VectorView.Elements | include/tc/vector_view.hpp:259-263 | the window holds `size()` elements, element `k` (0-based) being `operator[](k + 1)` |
| VectorViews.VectorView.constructor | include/tc/vector_view.hpp:51-55 | the default view has a null pointer and size 0, and is empty |
| VectorViews.VectorView.FromPointer | include/tc/vector_view.hpp:64-71 | the view holds exactly the given pointer and size |
| VectorViews.VectorView.FromRange | include/tc/vector_view.hpp:77-90 | size is `end - begin`; the pointer is null exactly when the range is empty; the view shows the range's elements |
| VectorViews.VectorView.FromContainer | include/tc/vector_view.hpp:96-102 | the view shows the whole container |
| VectorViews.VectorView.Ref | include/tc/vector_view.hpp:118-124 | `operator[](i)` is 1-indexed: for `1 <= i <= size()` it addresses offset `i - 1`, inside the window |
| VectorViews.VectorView.Put | include/tc/vector_view.hpp:118-124 | assigning through `operator[](i)` changes that element and no other position of the buffer |
| VectorViews.VectorView.At | include/tc/vector_view.hpp:128-137 | as written: fails exactly when `i < 1 \|\| i >= size()`; on success returns the element at offset `i`, which is `operator[](i + 1)` |
| VectorViews.VectorView.AtIntended | include/tc/vector_view.hpp:128-137 | corrected: fails exactly when `operator[](i)` would be out of range, otherwise the same element |
| VectorViews.VectorView.Front | include/tc/vector_view.hpp:205-209 | `front()` is `operator[](1)` |
| VectorViews.VectorView.Back | include/tc/vector_view.hpp:140-144 | `back()` is `operator[](size())` |
| VectorViews.VectorView.Begin | include/tc/vector_view.hpp:147-151 | `begin()` is `operator[](1)` when there is one |
| VectorViews.VectorView.End | include/tc/vector_view.hpp:198-202 | `end() - begin() == size()` |
| VectorViews.VectorView.Size | include/tc/vector_view.hpp:248-252 | `size()` is the number of viewed elements |
| VectorViews.VectorView.Empty | include/tc/vector_view.hpp:191-195 | `empty()` holds exactly when there are no elements, i.e. `size() == 0` |
| VectorViews.VectorView.ShrinkBack | include/tc/vector_view.hpp:229-235 | size drops by `count`, the pointer stays, every remaining 1-based index refers to the same element |
| VectorViews.VectorView.ShrinkFront | include/tc/vector_view.hpp:238-245 | new `operator[](i)` is old `operator[](i + count)`, size drops by `count` |
| VectorViews.AtIsShiftedByOne | include/tc/vector_view.hpp:133-136 | for two or more elements, `at(1)` is `operator[](2)`, and `at(size())` fails although `operator[](size())` is valid |
| VectorViews.AtAgreesWithIntendedShifted | include/tc/vector_view.hpp:133-136 | wherever `at(i)` succeeds it equals the intended `at(i + 1)` |
| MatrixViews.MatrixView.Size | include/tc/matrix_view.hpp:105-108 | `size()` is 0 exactly when a dimension is 0, and it is at least `columns()` when there are rows |
| MatrixViews.MatrixView.Offset | include/tc/matrix_view.hpp:65-68 | the row-major offset of an in-range `(r, c)` lies in `[0, rows * columns)` |
| MatrixViews.MatrixView.Ref | include/tc/matrix_view.hpp:65-68 | `operator()(r, c)` on in-range indices addresses a position inside the viewed window |
| MatrixViews.MatrixView.Elements | include/tc/matrix_view.hpp:93-96 | `data()[0 .. size())`, where `(r, c)` sits at its row-major offset |
| MatrixViews.MatrixView.Row | include/tc/matrix_view.hpp:65-68 | row `r` is `columns` consecutive elements, entry `c` being `(r, c)` |
| MatrixViews.MatrixView.Column | include/tc/matrix_view.hpp:65-68 | column `c` has `rows` entries, entry `r` being `(r, c)` |
| MatrixViews.MatrixView.At | include/tc/matrix_view.hpp:74-84 | as written: row error exactly when `r < 1 \|\| r >= rows`, then column error exactly when `c < 1 \|\| c >= columns`; success exactly when `1 <= r < rows` and `1 <= c < columns`, with the same element as `operator()(r, c)` |
| MatrixViews.MatrixView.AtIntended | include/tc/matrix_view.hpp:74-84 | corrected: row error exactly when `r` is outside `1..rows`, then column error exactly when `c` is outside `1..columns`; success exactly when `operator()(r, c)` addresses the view, with that element |
| MatrixViews.MatrixView.Put | include/tc/matrix_view.hpp:65-68 | assigning through `operator()(r, c)` changes that element and no other position or element |
| MatrixViews.Default | include/tc/matrix_view.hpp:36-40 | the default view has null data, 0 rows and 0 columns |
| MatrixViews.OffsetInjective | include/tc/matrix_view.hpp:65-68 | distinct in-range `(r, c)` pairs have distinct offsets |
| MatrixViews.OffsetSurjective | include/tc/matrix_view.hpp:65-68 | every offset below `size()` is the offset of some in-range `(r, c)`; with injectivity, a bijection |
| MatrixViews.Strides | include/tc/matrix_view.hpp:67 | adjacent columns are 1 element apart, adjacent rows `columns` apart |
| MatrixViews.AtRefusesLastRowAndColumn | include/tc/matrix_view.hpp:76-81 | `at(rows, columns)` fails with a row error (and `at(1, columns)` with a column error) though `operator()` addresses them |
| MatrixViews.EntrywiseMapIsFlatMap | include/tc/matrix_ops_f.hpp:22 | entrywise `result(i, j) == f(in(i, j))` is the flat map of `f` over `data()[0 .. size())` |
| MatrixOps.MCpy | include/tc/matrix_ops.hpp:13-26 | every `out(i, j)` becomes the entry value of `in(i, j)`; nothing outside `out`'s window changes |
| MatrixOps.MFill | include/tc/matrix_ops.hpp:29-37 | every element becomes `val`, so the view reads `size()` copies of `val` whatever it held: filling twice equals filling once |
| MatrixOps.MFn | include/tc/matrix_ops.hpp:40-53 | `result(i, j) == f(in(i, j))`, and read flat it is the parallel `m_fn`'s map |
| MatrixOps.MTrn | include/tc/matrix_ops.hpp:57-70 | with the transposed shape and no aliasing, `result(j, i) == in(i, j)` |
| MatrixOps.TransposeAssertionsAdmitOutOfWindowWrite | include/tc/matrix_ops.hpp:60-69 | under the shape assertions as written, a wide input drives a write at an offset beyond `result`'s window |
| MatrixOps.MmAdd | include/tc/matrix_ops.hpp:73-88 | `result(i, j) == lhs(i, j) + rhs(i, j)` |
| MatrixOps.MmHprod | include/tc/matrix_ops.hpp:91-106 | `result(i, j) == lhs(i, j) * rhs(i, j)` |
| MatrixOps.MmMul | include/tc/matrix_ops.hpp:109-126 | `result(i, j)` is row `i` of `lhs` dotted with column `j` of `rhs`, and 0 for an empty inner dimension |
| MatrixOps.AccumulateEntry | include/tc/matrix_ops.hpp:120-123 | after the reset and the `k` loop, entry `(i, j)` is the dot product and no other entry changed |
| MatrixOps.MmSub | include/tc/matrix_ops.hpp:129-144 | `result(i, j) == lhs(i, j) - rhs(i, j)` |
| MatrixOps.MsMul | include/tc/matrix_ops.hpp:147-160 | `result(i, j) == lhs(i, j) * rhs` |
| MatrixOps.SmMul | include/tc/matrix_ops.hpp:163-176 | `result(i, j) == lhs * rhs(i, j)` over `rhs`'s shape |
| VectorOps.SvMul | include/tc/vector_ops.hpp:14-24 | `result` is `lhs` times each element of `rhs` |
| VectorOps.VCpy | include/tc/vector_ops.hpp:27-37 | `out` holds the elements of `in` |
| VectorOps.VEsum | include/tc/vector_ops.hpp:40-48 | the result is the sum of the elements, from `Element{}` |
| VectorOps.VFill | include/tc/vector_ops.hpp:51-57 | the vector reads `size()` copies of `value` whatever it held: filling twice equals filling once |
| VectorOps.VFn | include/tc/vector_ops.hpp:60-70 | `result(i) == f(in(i))` for every `i` |
| VectorOps.VsMul | include/tc/vector_ops.hpp:100-110 | `result(i) == lhs(i) * rhs` for every `i` |
| VectorOps.VvAdd | include/tc/vector_ops.hpp:113-124 | elementwise sum |
| VectorOps.VvCprod | include/tc/vector_ops.hpp:127-139 | the three components of the cross product; the result is orthogonal to both operands |
| VectorOps.VvDprod | include/tc/vector_ops.hpp:142-154 | the inner product from `Element{}`, equal to the sum of the Hadamard product, 0 for empty vectors |
| VectorOps.VvHprod | include/tc/vector_ops.hpp:157-168 | elementwise product |
| VectorOps.VvMprod | include/tc/vector_ops.hpp:171-184 | `result(i, j) == lhs(i) * rhs(j)` |
| VectorOps.VvSub | include/tc/vector_ops.hpp:187-198 | elementwise difference |
| MvOps.MvMul | include/tc/mv_ops.hpp:13-28 | `result(i)` is row `i` of `lhs` dotted with `rhs`, whatever `result` held; 0 for no columns |
| MvOps.MvTmul | include/tc/mv_ops.hpp:31-46 | `result(j)` is column `j` of `lhs` dotted with `rhs`; 0 for no rows |
| MvOps.VmMul | include/tc/mv_ops.hpp:49-64 | `result(j)` is `lhs` dotted with column `j` of `rhs`; 0 for an empty `lhs` |
| MvOps.AccumulateRowProduct | include/tc/mv_ops.hpp:22-26 | after the reset and the `j` loop, `result(i)` is the dot product and no other element changed |
| MvOps.AccumulateColumnProduct | include/tc/mv_ops.hpp:40-44 | after the reset and the `i` loop, `result(j)` is the dot product and no other element changed |
| MvOps.AccumulateVectorColumn | include/tc/mv_ops.hpp:58-62 | after the reset and the `i` loop, `result(j)` is the dot product and no other element changed |
| MvOps.VmMulMatchesMvTmul | include/tc/mv_ops.hpp:57-63 | `vm_mul(v, m)` and `mv_tmul(m, v)` specify the same output, element by element |
| Algebra.SubUndoesAdd | include/tc/vector_ops.hpp:187-198 | subtracting `b` from the sum with `b` gives the original vector |
| Algebra.SumOfAdd | include/tc/vector_ops.hpp:40-48 | the element sum is additive over elementwise addition |
| Algebra.DotIsSumOfHProd | include/tc/vector_ops.hpp:142-154 | the dot product is the element sum of the Hadamard product |
| Algebra.DotCommutes | include/tc/mv_ops.hpp:49-64 | the dot product is symmetric |
| Algebra.SumOfScale | include/tc/vector_ops.hpp:14-24 | a scalar factor comes out of the element sum |
| Algebra.ScaleSidesAgree | include/tc/vector_ops.hpp:100-110 | over integers `sv_mul` and `vs_mul` agree |
| Algebra.DotOfThree | include/tc/vector_ops.hpp:127-139 | the dot product of 3-vectors written out |
| Algebra.TripleProductVanishes | include/tc/vector_ops.hpp:136-138 | the components written by `vv_cprod` are orthogonal to each operand |
| Algebra.CrossIsOrthogonal | include/tc/vector_ops.hpp:127-139 | the cross product is orthogonal to both operands |
| Algebra.DotOfEmpty | include/tc/vector_ops.hpp:149-153 | an empty inner product is `Element{}`, zero |
| Algebra.DotSnoc | include/tc/vector_ops.hpp:149-153 | one more `+=` step extends the accumulated dot product by one more pair's product |
| Algebra.MixedProductVanishes | include/tc/vector_ops.hpp:136-138 | the cross product of `x` and `y`, dotted with `x`, is zero as a polynomial identity |
| BinaryUtil.Bits | include/tc/binary_util.hpp:17-18 | `bits<T>` is `sizeof(T) * CHAR_BIT`: 8, 16, 32 or 64 |
| BinaryUtil.PromotedBits | include/tc/binary_util.hpp:27-31 | a shift operand is at least 32 bits wide and at least `bits<T>` |
| BinaryUtil.Pattern | include/tc/binary_util.hpp:35-38 | the two's-complement object representation of a value, below `2^bits<T>` |
| BinaryUtil.FromPattern | include/tc/binary_util.hpp:55-59 | converting a pattern back gives a value of `T` with that pattern |
| BinaryUtil.PatternRoundTrip | include/tc/binary_util.hpp:55-59 | converting a value to its representation and back gives the value |
| BinaryUtil.GetBit | include/tc/binary_util.hpp:27-31 | below `bits<T>`, true exactly when bit `n` of the representation is set; above, the sign |
| BinaryUtil.PopcountWidth | include/tc/binary_util.hpp:33-52 | the chosen overload counts at 16, 32 or 64 bits, the first of these that is at least `bits<T>`; so 16 for 8-bit types, and `bits<T>` otherwise |
| BinaryUtil.Popcount | include/tc/binary_util.hpp:33-52 | as written: the count lies in `[0, width of the overload]` |
| BinaryUtil.PopcountOwnWidth | include/tc/binary_util.hpp:33-52 | corrected: the set bits of the value's own representation, at most `bits<T>` |
| BinaryUtil.OwnWidthCountsGetBit | include/tc/binary_util.hpp:26-52 | the corrected count is the number of `n < bits<T>` for which `get_bit(v, n)` holds |
| BinaryUtil.SetBitCond | include/tc/binary_util.hpp:54-59 | false condition: unchanged; true: bit `n` set, other bits unchanged, idempotent; setting a clear bit raises the own-width count by 1, and the count as written by 1 plus the sign extension when the sign bit of a signed type is set |
| BinaryUtil.SetBitPattern | include/tc/binary_util.hpp:58 | on representations, `val \| (condition << n)` reduced to `bits<T>`: bit `n` set when it fits, other bits kept, idempotent, count up by one for a clear bit |
| BinaryUtil.SetClearBitPopcount | include/tc/binary_util.hpp:33-59 | after `set_bit_cond` sets a clear bit, `popcount` as written counts 1 more, plus `width - bits<T>` when the bit is the sign bit of a signed type |
| BinaryUtil.SetClearBitOwnWidth | include/tc/binary_util.hpp:54-59 | setting a clear bit and keeping the others raises the own-width count by exactly 1 |
| BinaryUtil.CountGetBitsOneMore | include/tc/binary_util.hpp:26-31 | two values differing only in bit `n`, clear in the first, differ by one `get_bit` among the low `k` bits exactly when `n < k` |
| BinaryUtil.SignIsTopBit | include/tc/binary_util.hpp:26-31 | in a signed type, `get_bit(val, bits<T> - 1)` holds exactly when `val` is negative |
| BinaryUtil.SignBitOfByteCountsNine | include/tc/binary_util.hpp:35-38 | setting bit 7 of a signed 8-bit 0 gives -128: one set bit of its own, counted as 9 by `popcount` as written |
| BinaryUtil.PopcountWidening | include/tc/binary_util.hpp:35-38 | the cast to 16 bits adds exactly the sign-extension bits; counts agree unless `T` is a negative signed 8-bit value |
| BinaryUtil.NonNegativeNotWidened | include/tc/binary_util.hpp:35-52 | a non-negative value counts the same at the overload's width as at its own |
| BinaryUtil.NegativeWidened | include/tc/binary_util.hpp:35-52 | a negative value is signed, and the cast adds `width - bits<T>` set bits |
| BinaryUtil.WidenedCount | include/tc/binary_util.hpp:37 | a negative value reduced modulo `2^k` has `k - b` set bits above its `b`-bit representation |
| BinaryUtil.PopCountHighOnes | include/tc/binary_util.hpp:37 | sign extension from `b` to `k` bits sets exactly `k - b` further bits |
| BinaryUtil.PopCountTopBit | include/tc/binary_util.hpp:37 | setting the bit just above a pattern raises its count by one |
| BinaryUtil.PopcountWithinBits | include/tc/binary_util.hpp:33-52 | except for negative signed 8-bit values, `popcount` lies in `[0, bits<T>]` |
| BinaryUtil.PopcountOfMinusOne | include/tc/binary_util.hpp:35-38 | -1 counts `bits<T>` own-width bits and the overload's full width as written |
| BinaryUtil.AllBitsSet | include/tc/binary_util.hpp:33-52 | a value with every bit set counts `bits<T>` own-width bits; as written a signed one counts the overload's full width |
| BinaryUtil.OwnWidthAllOnes | include/tc/binary_util.hpp:33-52 | a representation with every bit set counts `bits<T>` |
| BinaryUtil.AllOnesIsNegative | include/tc/binary_util.hpp:35-38 | in a signed type, the value whose bits are all set is -1 |
| BinaryUtil.PopcountOfNegativeByteExceedsBits | include/tc/binary_util.hpp:35-38 | for a signed 8-bit -1, `popcount` as written gives 16 > `bits<T>` = 8 |
| BinaryUtil.PopcountOfUnsigned | include/tc/binary_util.hpp:33-52 | for unsigned types the count is that of the value's own bits |
| BinaryUtil.ShrIsDivision | include/tc/binary_util.hpp:30 | shifting right by `n` is floor division by `2^n` |
| BinaryUtil.GetBitReadsPattern | include/tc/binary_util.hpp:30 | `(value >> n) & 1` reads bit `n` of the representation below `bits<T>`, the sign above |
| BinaryUtil.ShiftReadsPattern | include/tc/binary_util.hpp:30 | below `bits<T>`, the parity of `value >> n` is bit `n` of the representation |
| BinaryUtil.ShiftBeyondWidth | include/tc/binary_util.hpp:30 | at or above `bits<T>`, `value >> n` is 0 for a non-negative value and -1 for a negative one |
| BinaryUtil.PopCountIsCountBits | include/tc/binary_util.hpp:33-52 | a pattern's set-bit count is the number of its positions whose bit is set |
| BinaryUtil.PopCountBound | include/tc/binary_util.hpp:33-52 | a `w`-bit pattern has at most `w` set bits |
| BinaryUtil.OrBit | include/tc/binary_util.hpp:58 | bit `m` of `a \| b` is set exactly when it is set in `a` or in `b` |
| BinaryUtil.Pow2Bit | include/tc/binary_util.hpp:58 | `1 << n` has bit `n` set and no other |
| BinaryUtil.OrSetBitIdempotent | include/tc/binary_util.hpp:58 | or-ing in a bit that is already set changes nothing |
| BinaryUtil.PopCountOrNewBit | include/tc/binary_util.hpp:58 | or-ing in a clear bit raises the count by exactly 1 |
| BinaryUtil.OrHighBit | include/tc/binary_util.hpp:58 | a bit at or above `bits<T>` is dropped by the conversion back to `T` |

## Left out

- `random.hpp`: not part of this model. Its generators are seeded from `random_device` and the clock.
- `math.hpp` (`sigmoid`): not part of this model; it is floating-point `exp` arithmetic.
- `v_l2norm` and `v_pnorm`: not part of this model; they rely on floating-point `sqrt`, `pow` and `abs`.
- `matrix_ops_f.hpp`: its parallel execution is not modelled. Its sequential meaning, a flat map over `data()`, appears only as the lemma `MatrixViews.EntrywiseMapIsFlatMap` about `m_fn`.
- `test/performance_test.cpp` (timing and console output) and the type-metaprogramming headers (`type_support.hpp`, `add_pointers.hpp`, `are_same.hpp`): no runtime behaviour to model.
- Element types: `double` elements become mathematical integers, so rounding, overflow, NaN and infinities are not modelled.
- Reverse iterators, `cbegin`/`cend`, `data()` of the 1-D views, the copy and move members, and the `noexcept` specifications: left out as standard-library plumbing. Iterators are positions and containers are arrays.
- `std::data` of an empty container may be null or not; the model's container constructor always keeps the array.
- `size_t` arithmetic is unbounded here; the kernels' loop counters and the views' sizes do not wrap.
- ArrayViews.ArrayView.ShrinkBack: requires `count <= size()`. The source's unsigned `_size -= count` would wrap to a huge size for a larger count.
- ArrayViews.ArrayView.ShrinkFront: requires `count <= size()`, for the same reason.
- VectorViews.VectorView.ShrinkBack: requires `count <= size()`, for the same reason.
- VectorViews.VectorView.ShrinkFront: requires `count <= size()`, for the same reason.
- Aliasing between views is restricted:
  - An elementwise kernel is modelled for an output on a separate buffer or on exactly the input's window (in-place use).
  - A partially overlapping output window is excluded.
  - `m_trn`, `mm_mul`, `vv_cprod`, `vv_mprod` and the `mv_ops` kernels require an output buffer that no input reads. With aliasing they would read elements they have already overwritten.
  - The test for separate buffers (`Checked.Apart`) compares whole backing arrays. Disjoint windows of one array, such as `mm_mul` operands carved from one `std::vector`, do not alias, but they are excluded too.
- BinaryUtil.SetBitCond: follows C++20 for a shift into the sign bit (`1 << 31` on `int`), which earlier standards leave undefined.
- BinaryUtil.GetBit: for `n` at or beyond the promoted width the shift is undefined behaviour; such `n` is excluded by the precondition.
- The MSVC `__popcnt16`/`__popcnt`/`__popcnt64` intrinsics are specified by a recursive bit count.

## Findings

| source | as written | input that shows it | evidently intended | confidence | as-written member | corrected member |
|---|---|---|---|---|---|---|
| include/tc/vector_view.hpp:133-136 | `at(i)` refuses `i >= size()` and returns `_pointer[i]` | a view of 2 elements: `at(1)` returns element 2, `at(2)` throws | 1-indexed like `operator[]`: refuse `i > size()`, return `_pointer[i - 1]` | high, not executed | VectorViews.VectorView.At (with VectorViews.AtIsShiftedByOne) | VectorViews.VectorView.AtIntended |
| include/tc/matrix_view.hpp:76-81 | rows checked with `row >= _rows`, columns with `column >= _columns` | any 1x1 matrix: `at(1, 1)` throws a row error | refuse only `row > _rows` and `column > _columns` | high, not executed | MatrixViews.MatrixView.At (with MatrixViews.AtRefusesLastRowAndColumn) | MatrixViews.MatrixView.AtIntended |
| include/tc/matrix_ops.hpp:60-62 | `m_trn` asserts that `result` has the same shape as `in` | `in` and `result` both 1x2: the write `result(2, 1)` lands at offset 2 of a 2-element window | `result` has `in`'s columns as rows and its rows as columns | high, not executed | MatrixOps.TransposeAssertionsAdmitOutOfWindowWrite | MatrixOps.MTrn |
| include/tc/binary_util.hpp:35-38 | `popcount` of an 8-bit value casts it to `std::uint16_t` first | a signed 8-bit -1: the cast sign-extends to `0xFFFF` and `popcount` gives 16, more than `bits<T>` = 8; likewise `set_bit_cond` of bit 7 on a signed 8-bit 0 gives -128, counted as 9 (`0xFF80`) | count the bits of the value's own representation | high, not executed | BinaryUtil.Popcount (with BinaryUtil.PopcountOfNegativeByteExceedsBits and BinaryUtil.SignBitOfByteCountsNine) | BinaryUtil.PopcountOwnWidth |
