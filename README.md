# ndarrays in Dafny

A model of the strided N-dimensional array library `ndarray`: the view class
`ndarray<T>` (ndarray/ndarray.h), its arithmetic, comparison and transpose
operations (ndarray/ndarray_math.h), and the string helpers transpose uses to
read its pattern (src/string_utils.h).

A view is a record of shape, row-major strides, element count and offset over
one shared element buffer. In the model it is the class `NdArrays.NdArray`,
whose buffer is an `array<int>`. Slicing, copy construction and reshape build
new views over the same array, so aliasing is modelled directly: a write
through one view is visible through every view covering that element. The
invariant every constructor and operation keeps is `NdArray.Valid()`: the
strides are `StridesFor(shape)`, the size is `Product(shape)`, and the range
`[offset, offset + size)` lies inside the buffer.

Modules, in dependency order:

- `Results`: the error kinds of the checked (debug) build, with `Option`,
  `Result` and `Outcome` types. Each thrown `runtime_error` or `logic_error`
  becomes a `Failure` or `Fail` value.
- `Shapes`: element counts (`size_for_shape`), strides (`strides_for_shape`),
  the linear offset of a multi-index (`get_index`, `compute_offset`), its
  inverse, and the index checks.
- `StringUtils`: `ltrim`, `rtrim`, `trim` and `all_latin`, stated by their
  character-level meaning.
- `NdArrays`: the view class with its constructors, slicing, element access,
  scalar coercion and assignment, `set_value`, `copy` and `reshape`.
- `Permutations`: axis permutations, moving a multi-index between axis orders,
  and the permuted shape built by transpose.
- `NdArrayMath`: the elementwise operators and `==`. Each is proved against
  value-level functions on sequences (`Zip`, `Fill`, `Negated`).
- `Transpose`: pattern parsing and validation, the permutation built from the
  labels, and the copy loop of `transpose_impl`. That loop is proved to store
  each source element at its permuted position exactly once.

Elements are unbounded integers, so the closeness test of `==`
(|l - r| < 1e-12) becomes exact equality. The binary operators' shape check is
modelled as exact shape equality with a `ShapeMismatch` error result. The
check as written is weaker, which is the third finding below.

## Model

| member | source | states |
|---|---|---|
| Shapes.StridesForShape | ndarray/ndarray.h:427-435 | the backward loop yields, for each axis, the product of the extents after it (empty for the empty shape) |
| Shapes.StridesLaw | ndarray/ndarray.h:427-435 | the last stride is 1 and each stride is the next stride times the next extent |
| Shapes.StridesExample | test/ndarray_test.cpp:12-16 | shape (1,2,3,4,5) has 120 elements and strides [120,60,20,5,1] |
| Shapes.ProductIsAccumulate | ndarray/ndarray.h:391-394 | the element count `Product` equals the running product that std::accumulate forms over the extents from first to last, starting at 1 |
| Shapes.ProductPositive | ndarray/ndarray.h:391-394 | a shape has elements exactly when no extent is zero |
| Shapes.CheckIndices | ndarray/ndarray.h:447-453 | passes exactly when there are no more indices than axes and each is below its extent; too many indices is a dimension error, otherwise the error is an index error |
| Shapes.CheckBounds | ndarray/ndarray.h:368-371 | the per-axis bound check passes exactly when every given index is below its extent |
| Shapes.GetShape | ndarray/ndarray.h:405-417 | succeeds exactly for in-range leading indices, with the matching error otherwise; the sub-shape is the shape with those leading axes removed |
| Shapes.DotIsInnerProduct | ndarray/ndarray.h:379-382 | the offset `Dot` equals the running sum of index times stride that std::inner_product forms over the axes from first to last, starting at 0 |
| Shapes.DotBound | ndarray/ndarray.h:360-377 | the offset of in-range leading indices plus the size of the sub-array they select is at most the element count |
| Shapes.FullIndexBelowSize | ndarray/ndarray.h:360-377 | the offset of a full in-range index is below the element count |
| Shapes.Unravel | ndarray/ndarray_math.h:23-27 | decomposing a linear position last axis first, by remainders and quotients, gives a full in-range index |
| Shapes.RavelUnravel | ndarray/ndarray_math.h:23-27 | the row-major offset of the decomposition of position k is k |
| Shapes.UnravelRavel | ndarray/ndarray_math.h:23-27 | decomposing the offset of a full index gives that index back |
| Shapes.Contiguous | ndarray/ndarray.h:308-321 | full indices address exactly the positions 0 .. size-1, each exactly once |
| StringUtils.LTrim | src/string_utils.h:16-19 | the result is a suffix of the input; the dropped prefix is all white space; the result does not start with white space |
| StringUtils.RTrim | src/string_utils.h:21-24 | the result is a prefix of the input; the dropped suffix is all white space; the result does not end with white space |
| StringUtils.Trim | src/string_utils.h:26-28 | rtrim then ltrim gives the same string as ltrim then rtrim |
| StringUtils.TrimNoOuterSpace | src/string_utils.h:26-28 | a non-empty trim result neither starts nor ends with white space |
| StringUtils.TrimIsInfix | src/string_utils.h:16-28 | trim returns a contiguous piece s[i..j] of its input, and what lies before i and after j is white space only |
| StringUtils.TrimIdentity | src/string_utils.h:26-28 | trim leaves a string unchanged exactly when it is empty or neither starts nor ends with white space |
| StringUtils.TrimIdempotent | src/string_utils.h:26-28 | trimming twice is trimming once |
| StringUtils.AllLatin | src/string_utils.h:30-34 | true exactly when every character is in a-z or A-Z (so true of the empty string) |
| NdArrays.NdArray.constructor | ndarray/ndarray.h:64-69 | a valid view of the given shape at offset 0 over a fresh buffer of exactly Product(shape) elements, all zero |
| NdArrays.NdArray.Alias | ndarray/ndarray.h:96-108 | the copy shares the buffer and has the same shape, strides, size and offset |
| NdArrays.NdArray.SliceOf | ndarray/ndarray.h:88-94 | a valid view over the same buffer with the remaining axes as shape, starting at the parent offset plus the indices' offset |
| NdArrays.NdArray.Slice | ndarray/ndarray.h:88-94 | succeeds exactly for in-range leading indices, with the dimension or index error otherwise; on success the shape, buffer and offset are as for SliceOf, and the slice range lies inside the parent's range |
| NdArrays.NdArray.Call | ndarray/ndarray.h:202-210 | operator(): errors and slice as for Slice; a full index gives a zero-dimensional view of the single element it addresses |
| NdArrays.NdArray.GetIndex | ndarray/ndarray.h:360-377 | succeeds exactly for in-range indices, with the matching error; the offset leaves room for the selected sub-array, and a full index's offset is below the size |
| NdArrays.NdArray.RefPosition | ndarray/ndarray.h:186-193 | succeeds exactly for in-range indices; then offset <= position, the position plus the size of the selected sub-array is at most offset + size, and for a full index the position is below offset + size |
| NdArrays.NdArray.At | ndarray/ndarray.h:243-254 | succeeds exactly for a full in-range index; a wrong index count is a dimension error; the value is the element of the contents at the index's offset |
| NdArrays.NdArray.AsScalar | ndarray/ndarray.h:120-144 | succeeds exactly on a zero-dimensional view, else NotZeroDimension; the value is its single element |
| NdArrays.NdArray.Assign | ndarray/ndarray.h:153-160 | on a zero-dimensional view writes exactly data[offset] and nothing else; otherwise fails with NotZeroDimension and changes nothing |
| NdArrays.NdArray.SetValue | ndarray/ndarray.h:279-282 | every position of [offset, offset + size) becomes v and every other buffer position keeps its value |
| NdArrays.NdArray.SetZero | ndarray/ndarray.h:284-286 | the view's range becomes zero and the rest of the buffer is unchanged |
| NdArrays.NdArray.Copy | ndarray/ndarray.h:168-172 | a view of the same shape at offset 0 over a fresh buffer holding the source's contents |
| NdArrays.NdArray.Reshape | ndarray/ndarray.h:288-295 | succeeds exactly when the new shape has the same element count and the offset is 0; the result shares buffer, offset, size and contents and has the new shape's strides |
| NdArrays.NdArray.InplaceReshape | ndarray/ndarray.h:297-304 | fails exactly when the offset is non-zero and then changes nothing; otherwise replaces shape and strides, keeping buffer, offset and size |
| NdArrays.ViewContiguous | ndarray/ndarray.h:308-321 | every full index of a valid view addresses a position in [offset, offset + size), every position there is addressed, and distinct indices address distinct positions |
| NdArrays.AssignThroughSlice | ndarray/ndarray.h:154-160 | assigning through the zero-dimensional slice at a full index changes exactly the parent's element at that index, which the parent then reads back |
| Permutations.PermutationOnto | ndarray/ndarray_math.h:16-19 | a permutation takes every value below its length, so every axis of the result receives an extent |
| Permutations.Scatter | ndarray/ndarray_math.h:24-26 | the scattered index holds u[a] at position pattern[a] |
| Permutations.GatherScatter | ndarray/ndarray_math.h:24-26 | gathering a scattered index gives the original index |
| Permutations.ScatterGather | ndarray/ndarray_math.h:24-26 | scattering a gathered index gives the original index |
| Permutations.Inverse | ndarray/ndarray_math.h:16-19 | the inverse of a permutation is a permutation and undoes it in both orders |
| Permutations.PermuteShapeAt | ndarray/ndarray_math.h:16-19 | the permuted shape has shape[a] at axis pattern[a] and the same element count |
| Permutations.ProductPermuted | ndarray/ndarray_math.h:16-20 | reordering extents by a permutation keeps the element count |
| Permutations.PermuteShapeInverse | ndarray/ndarray_math.h:16-19 | permuting a shape and then permuting by the inverse gives the shape back |
| Permutations.ScatterInRange | ndarray/ndarray_math.h:24-26 | a full index of the source shape scatters to a full index of the permuted shape |
| Permutations.GatherInRange | ndarray/ndarray_math.h:24-26 | a full index of the permuted shape gathers to a full index of the source shape |
| NdArrayMath.SubUndoesAdd | ndarray/ndarray_math.h:41-73 | subtracting what was added gives back the original, as a += b; a -= b does |
| NdArrayMath.AddCommutes | ndarray/ndarray_math.h:124-128 | elementwise addition is commutative |
| NdArrayMath.ZeroPlus | ndarray/ndarray_math.h:41-56 | adding an array to zeros gives that array |
| NdArrayMath.ScalarShiftRoundTrip | ndarray/ndarray_math.h:113-140 | (a + s) - s is a |
| NdArrayMath.NegatedLaws | ndarray/ndarray_math.h:150-156 | unary minus is subtraction from zero, and applying it twice is the identity |
| NdArrayMath.ScalarMinusAsWrittenIsNegation | ndarray/ndarray_math.h:142-146 | s - a as written is the negation of the intended s - a, and the two agree exactly when every element equals s |
| NdArrayMath.ScalarMinusAsWrittenCounterexample | ndarray/ndarray_math.h:142-146 | for s = 1 and a = [0] the code gives [-1] where [1] is meant |
| NdArrayMath.ShapeCheckAsWritten | ndarray/ndarray_math.h:46-48 | the check as written passes exactly when the second shape has at least as many axes and agrees with the first shape on each of the first shape's axes |
| NdArrayMath.ShapeCheckSameRank | ndarray/ndarray_math.h:46-48 | for shapes of equal rank the check as written is exact shape equality |
| NdArrayMath.ShapeCheckAsWrittenCounterexample | ndarray/ndarray_math.h:46-48 | the check as written accepts shape (2) against (2, 0), whose element counts are 2 and 0 |
| NdArrayMath.ShapesMatchSameSize | ndarray/ndarray_math.h:50-54 | with equal shapes the second range is as long as the first, so every read of it stays inside its buffer |
| NdArrayMath.TransformRange | ndarray/ndarray_math.h:50-54 | std::transform into the first range, where the two ranges may share a buffer: each first-range position combines its old value with the second-range element as it is when read; every other position is unchanged |
| NdArrayMath.TransformInPlace | ndarray/ndarray_math.h:50-54 | fails on a shape mismatch and then changes nothing; otherwise the per-position result above; it is the elementwise combination of the old contents unless the second range starts before the first and overlaps it; the second operand is unchanged when the ranges are disjoint |
| NdArrayMath.AddAssign | ndarray/ndarray_math.h:41-56 | += : ShapeMismatch exactly on unequal shapes, changing nothing; otherwise each position of first's range holds its old value plus the second operand's element as std::transform reads it (already updated when the second range starts before the first inside the same buffer); this is old first + old second elementwise unless the second range starts before the first and overlaps it; nothing outside first's range changes, and a disjoint second is unchanged |
| NdArrayMath.SubAssign | ndarray/ndarray_math.h:58-73 | -= : the same per-position and elementwise results with subtraction |
| NdArrayMath.AddSubRestores | ndarray/ndarray_math.h:41-73 | a += b followed by a -= b leaves both a and b as they were, and the whole buffer of a, so any other view of it, unchanged |
| NdArrayMath.Binary | ndarray/ndarray_math.h:76-109 | binary + and -: ShapeMismatch exactly on unequal shapes; otherwise a fresh array of the first shape at offset 0 holding the elementwise combination |
| NdArrayMath.ScalarRight | ndarray/ndarray_math.h:113-140 | a + s and a - s: a fresh array of a's shape holding a[k] + s or a[k] - s |
| NdArrayMath.ScalarPlus | ndarray/ndarray_math.h:124-128 | s + a holds s + a[k] for every k |
| NdArrayMath.ScalarMinusAsWritten | ndarray/ndarray_math.h:142-146 | s - a as written holds a[k] - s, the negation of s - a[k] |
| NdArrayMath.ScalarMinus | ndarray/ndarray_math.h:142-146 | the corrected s - a holds s - a[k] for every k |
| NdArrayMath.Negate | ndarray/ndarray_math.h:150-156 | unary minus: a fresh array of the same shape holding -a[k] |
| NdArrayMath.AllClose | ndarray/ndarray_math.h:168-170 | true exactly when every pair of corresponding elements is close, which on integers means the ranges are equal |
| NdArrayMath.Equals | ndarray/ndarray_math.h:160-171 | == : ShapeMismatch exactly on unequal shapes; otherwise true exactly when the contents are pairwise close, that is equal |
| NdArrayMath.EqualsReflexive | ndarray/ndarray_math.h:160-171 | every valid array equals itself |
| NdArrayMath.ZeroPlusEquals | test/ndarray_math_test.cpp:86-105 | a fresh zero array of a's shape, after += a, equals a |
| Transpose.FindArrowFrom | ndarray/ndarray_math.h:176 | the first "->" at or after a position, or none exactly when there is no "->" there |
| Transpose.FindArrow | ndarray/ndarray_math.h:176-179 | the first "->" in the pattern, or none exactly when the pattern has no "->" |
| Transpose.SplitPattern | ndarray/ndarray_math.h:176-181 | fails with MissingSeparator exactly when there is no "->"; otherwise from and to are the trimmed texts before and after the first "->" |
| Transpose.ValidateAsWritten | ndarray/ndarray_math.h:183-206 | passes exactly when label counts agree and equal the rank, all labels are Latin and every from label occurs in to; each failure is the error of the first check that fails, with lengths counted in characters (see Left out) |
| Transpose.Validate | ndarray/ndarray_math.h:183-206 | the corrected validation: the same outcome as written, except that a repeated from label is RepeatedLabel |
| Transpose.LabelsFound | ndarray/ndarray_math.h:193-206 | the nested search loop reports true exactly when every from label occurs in to |
| Transpose.LastIndex | ndarray/ndarray_math.h:208-214 | the value index_map holds for a label: its last position in to, or 0 when it does not occur |
| Transpose.BuildPattern | ndarray/ndarray_math.h:208-215 | the map-building loops give pattern[j] == index_map[from[j]] for every from position, and zero after them |
| Transpose.PatternLabels | ndarray/ndarray_math.h:212-215 | when every from label occurs in to, pattern[j] is a position of to holding from[j] |
| Transpose.PatternIsPermutation | ndarray/ndarray_math.h:208-215 | after the corrected validation the pattern is a permutation of 0 .. dim-1 |
| Transpose.PatternPermutationIffDistinct | ndarray/ndarray_math.h:208-215 | with equal counts and all labels present, the pattern is a permutation exactly when no from label repeats |
| Transpose.RepeatedLabelAccepted | ndarray/ndarray_math.h:183-216 | the checks as written accept "iij->ijk" on a rank-3 array; the pattern [0,0,1] is not a permutation; the corrected validation rejects it |
| Transpose.RepeatedLabelShape | ndarray/ndarray_math.h:16-20 | on that pattern shape (2,2,3) becomes (2,3,0): a result buffer of 0 elements for 12 source elements |
| Transpose.TransposeCheck | ndarray/ndarray_math.h:176-215 | the whole pre-copy path: fails with MissingSeparator exactly without "->", succeeds exactly when the corrected validation passes, and then yields a permutation of length dim |
| Transpose.ReversedPattern | ndarray/ndarray_math.h:183-206 | when "from->to" passes the corrected checks, so does "to->from", and its permutation is the inverse of the forward one |
| Transpose.JoinedSplits | ndarray/ndarray_math.h:176-181 | a pattern written as x + "->" + y with Latin labels splits back into exactly x and y |
| Transpose.ReversedPatternCheck | ndarray/ndarray_math.h:175-216 | if a pattern splits into (from, to) and passes with permutation p, then the string "to->from" passes with Inverse(p); with TransposeRoundTrip, transposing by the reversed pattern restores the array |
| Transpose.SumOfProducts | ndarray/ndarray_math.h:28-30 | the transform with multiplies followed by accumulate is the inner product |
| Transpose.Dest | ndarray/ndarray_math.h:22-31 | the destination offset of source element i lies below the element count |
| Transpose.Source | ndarray/ndarray_math.h:22-31 | the source element of each destination offset lies below the element count |
| Transpose.DestThenSource | ndarray/ndarray_math.h:22-31 | Source undoes Dest |
| Transpose.SourceThenDest | ndarray/ndarray_math.h:22-31 | Dest undoes Source |
| Transpose.DestBijective | ndarray/ndarray_math.h:22-31 | Dest is a bijection of 0 .. size-1, so every destination slot is written exactly once |
| Transpose.TransposedPlacement | ndarray/ndarray_math.h:22-31 | source element i sits at Dest(i) of the transposed contents |
| Transpose.TransposedAtIndex | ndarray/ndarray_math.h:22-31 | for a full index idx, the result at the permuted index idx' (idx'[pattern[a]] == idx[a]) holds the source element at idx |
| Transpose.SourceOfInverse | ndarray/ndarray_math.h:15-34 | transposing by the inverse pattern reads each element from where the forward transpose put it |
| Transpose.TransposeRoundTrip | ndarray/ndarray_math.h:15-34 | transposing back with the inverse pattern restores both the shape and the contents |
| Transpose.TransposeRoundTripAt | ndarray/ndarray_math.h:15-34 | the same, one element at a time |
| Transpose.WrittenAt | ndarray/ndarray_math.h:22-32 | after the first i copy steps each slot holds its source element if that element has been copied, else its initial zero |
| Transpose.WrittenIsTransposed | ndarray/ndarray_math.h:22-32 | after all copy steps the buffer holds the transposed contents |
| Transpose.PermutedShape | ndarray/ndarray_math.h:16-19 | the shape loop yields the permuted shape |
| Transpose.ScatterDigits | ndarray/ndarray_math.h:23-27 | the digit loop leaves the decomposition of i, scattered by the pattern, in indices |
| Transpose.DestinationOf | ndarray/ndarray_math.h:23-30 | the digit loop, the products with the result strides and their sum give Dest(i) |
| Transpose.CopyElement | ndarray/ndarray_math.h:23-31 | one copy step stores source element i at Dest(i) and advances the buffer by one step |
| Transpose.CopyElements | ndarray/ndarray_math.h:21-32 | the copy loop leaves the buffer with every source element stored at its Dest |
| Transpose.TransposeImpl | ndarray/ndarray_math.h:15-34 | a fresh array of the permuted shape and the same size whose contents are the transposed contents |
| Transpose.ParsePattern | ndarray/ndarray_math.h:176-215 | the checks in their order and the pattern loops give exactly the error or pattern of TransposeCheck |
| Transpose.Transpose | ndarray/ndarray_math.h:175-217 | fails exactly when the pattern check fails, with its error; otherwise a fresh array at offset 0, of the permuted shape and the source's size, holding the transposed contents |

## Left out

- The default constructor (ndarray/ndarray.h:38) is not modelled. It builds a view of size 0 with no buffer, which does not satisfy the size invariant.
- The variadic constructors, slicing and access overloads (ndarray/ndarray.h:47-49, 78-80, 177-193, 221-232, 263-271) are modelled once each, with a sequence of indices. The const and non-const twins are modelled once.
- `size_t` arithmetic is unbounded here. Overflow of a product of extents or of an offset is not modelled.
- Elements are integers. Floating-point and complex elements, `decltype` type promotion, `std::abs` and the 1e-12 tolerance of `==` are not modelled; closeness on integers is equality.
- `shared_ptr` ownership and destruction are not modelled. Shared ownership is several views holding the same array.
- The NDEBUG toggle and the exception messages are not modelled. The checked build is modelled, with one error value per thrown exception kind.
- `ref` calls a `check_dimensions` overload that does not exist (ndarray/ndarray.h:181 against 447). It is modelled only as `offset + get_index`, in `RefPosition`.
- NdArrays.NdArray.InplaceReshape: requires that the new shape has the view's element count; the source does not check this and would otherwise break the size invariant.
- NdArrays.NdArray.At, NdArrays.NdArray.RefPosition and NdArrays.NdArray.AsScalar return a value. Writing through the returned reference is modelled only through `Assign` and `AssignThroughSlice`.
- NdArrayMath.TransformInPlace: the elementwise formula over the old contents is stated only when the second range does not start before the first one inside the same buffer; in that case the per-position formula applies instead.
- NdArrayMath.TransformRange, NdArrayMath.TransformInPlace and NdArrayMath.ShapeCheckAsWritten fix two behaviours that C++ leaves open. First, the C++ standard does not promise that std::transform applies the operation front to back. When the second range partly overlaps the first, the per-position result assumes the front-to-back order that libstdc++ and libc++ use. Second, std::equal over a second shape shorter than the first reads past its end, which is undefined behaviour; it is modelled as a mismatch.
- NdArrayMath.TransformInPlace, NdArrayMath.AddAssign, NdArrayMath.SubAssign, NdArrayMath.Binary and NdArrayMath.Equals: the shape check is modelled as exact shape equality, the corrected check. The check as written only compares the first shape with a prefix of the second; it is `ShapeCheckAsWritten`, the third finding below.
- NdArrayMath.AddAssign and NdArrayMath.SubAssign: the elementwise formula over the old contents is stated only when the second range does not start before the first one inside the same buffer; in that case the per-position formula applies instead, as for `TransformInPlace`.
- NdArrayMath.AddSubRestores: requires the two ranges to be disjoint, since with overlapping ranges += changes the second operand too.
- Transpose.TransposeImpl: requires a permutation pattern. The source calls it with whatever pattern the checks let through; the repeated-label case is a finding below.
- Transpose.BuildPattern: requires no more from labels than to labels; it is only reached after the label counts have been checked equal.
- Transpose.ValidateAsWritten, Transpose.ParsePattern and Transpose.Transpose: strings are modelled as sequences of characters, not of bytes. `std::string::length` counts UTF-8 bytes, so for a pattern with non-ASCII labels the model can report a label-count or rank error where the source passes those checks and reports non-Latin labels (for example "é->ab" on a rank-2 array). Whether the pattern is accepted is the same in both, since any non-ASCII label fails the Latin check.
- Transpose.Transpose uses the corrected validation with the extra RepeatedLabel error. The checks as written are `ValidateAsWritten`.
- `string::find`, `substr` and `std::map` are modelled as functions on sequences and a Dafny `map`. The regex engine behind `trim` and `all_latin` is modelled by the character classes it matches.
- `begin`, `end`, `data`, `size`, `offset`, `shape`, `strides` and `dim` are plain field reads, or `Contents` and `Dim`.
- src/ndarray.h, src/ndarray_math.h, src/ndarray_t.h, the root ndarray.h and src/tensor.h are superseded iterations or a prototype and are not part of this model.
- The test harness and its random initialiser are not part of this model.

## Findings

| source | as written | input that shows it | evidently intended | confidence | as-written member | corrected member |
|---|---|---|---|---|---|---|
| ndarray/ndarray_math.h:142-146 | `s - a` returns `a - s` | s = 1, a = [0] gives [-1] | s - a[k] elementwise, here [1] | high, not executed | NdArrayMath.ScalarMinusAsWrittenCounterexample | NdArrayMath.ScalarMinus |
| ndarray/ndarray_math.h:183-216 | repeated `from` labels pass the checks | "iij->ijk" on shape (2,2,3): pattern [0,0,1], result shape (2,3,0) with 0 elements, then 12 writes into it | reject a pattern whose from labels repeat | high, not executed | Transpose.RepeatedLabelAccepted | Transpose.Validate |
| ndarray/ndarray_math.h:46-48 | the shape check compares only the first operand's extents | shapes (2) and (2,0) pass; the second range has 0 elements and 2 are read | exact shape equality | medium, not executed | NdArrayMath.ShapeCheckAsWrittenCounterexample | NdArrayMath.TransformInPlace |

In the second row the corrected member `Transpose.Validate` is used by
`Transpose.TransposeCheck`; `Transpose.PatternIsPermutation` proves that its
pattern is a permutation. In the third row the corrected check, exact shape
equality, is used by `TransformInPlace`, `Binary` and `Equals`, and
`ShapesMatchSameSize` proves that it keeps every read inside the second range.
The same check, as written, also guards `+`, `-` and `==` (ndarray/ndarray_math.h:80, 98, 164).
