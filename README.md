# NDArray: a verified model

This project models the generic multi-dimensional array `NDArray<T>` of
`sources/ndarray/NDArray.hpp`, with `T = int`. An array holds its elements in
one flat row-major vector (`m_data`, here the field `data: seq<int>`) and its
dimension sizes in `m_shape` (here `shape: seq<nat>`). The class `NDArray`
keeps both fields and mutates them in place the way the C++ methods do:

- the three constructors (default, fill, flat);
- the offset loop of `operator()`, with its rank and bounds checks;
- reads (`Get`) and writes (`Set`) through that offset;
- the scalar and array compound operators `+= -= *= /=` (`ApplyScalar` and
  `ApplyArray`, with the operator as an `Op` argument);
- `reshape`, `clear`, `dim`, `size` and `shape`.

A thrown `std::invalid_argument` becomes an error kind: `RankMismatch`,
`IndexOutOfRange`, `ReshapeSizeMismatch` or `ShapeMismatch`. Every failure
leaves the array unchanged.

Modules:

- `Layout` (layout.dfy) holds the shape arithmetic: `Product` (the
  `std::accumulate` with initial value 1), the row-major offset and its
  inverse `Unravel`, and the squeeze that was meant to run before reshape.
- `Elementwise` (elementwise.dfy) holds the element arithmetic, including
  C++'s truncating integer division.
- `NDArrays` (ndarray.dfy) holds the class and its invariant.
- `Scenario` (scenario.dfy) holds client code: the demonstration in
  `sources/main.cpp`, and round trips a caller can derive from the contracts.

Points where the code behaves differently from what its structure suggests:

- **The invariant.** The class keeps `|data| == Product(shape)`, except in
  the Empty state (`data == []` and `shape == []`). Only the default
  constructor and `clear()` produce that state. `Product([])` is 1, so
  `NDArray({}, v)` is a rank-0 array holding one element. `NDArray(std::vector<T>{})`
  has shape `[0]` and one dimension; it is not the Empty state.
- **The squeeze does nothing.** `delete_unessecary_dimensions` builds a
  filtered view and drops it, so `reshape` commits the requested shape
  verbatim, size-1 dimensions included. Size-0 dimensions are accepted as
  well. `Layout.Squeezed` models the intended squeeze, the filter `s > 1`,
  as a separate function. It is never applied. It drops sizes 0 as well as
  1. `Layout.SqueezedProduct` shows that, for shapes without a size-0
  dimension, applying it would not change which reshape requests are
  accepted, only the shape committed. For shapes with a size-0 dimension it
  would change acceptance both ways. `Layout.SqueezedDropsZeroSizes` shows
  that on an array without elements it would refuse every such shape, which
  the code accepts (`NDArray<int>({0}, v)`). `Layout.SqueezedAdmitsZeroShape`
  shows that on an array of n > 1 elements it would accept `{0, n}`, which
  the code refuses.
- **The scalar operand is a reference.** The scalar operators take
  `const T&` and re-read it for every element. When it refers to an element
  of the same array, later elements see its updated value (see Findings).
- **Reshape round trips** hold whenever `|data| == Product(shape)`. They fail
  from the Empty state, which reshapes to `[0]` but not back to `[]`.
- **No non-mutating `+ - * /`.** The file defines only the compound
  operators, so those are all the model has.

## Model

| member | source | states |
|---|---|---|
| Layout.Product | sources/ndarray/NDArray.hpp:53 | the element count of a shape (accumulate from 1) is positive exactly when every dimension is positive |
| Layout.ProductConcat | sources/ndarray/NDArray.hpp:152 | the count of a concatenated shape is the product of the parts' counts |
| Layout.RowMajorSnoc | sources/ndarray/NDArray.hpp:68-75 | the loop step `index = index*shape[i] + indices[i]` extends the row-major sum by one dimension |
| Layout.OffsetBelowProduct | sources/ndarray/NDArray.hpp:68-76 | an in-bounds index tuple has an offset below the shape's element count |
| Layout.Unravel | sources/ndarray/NDArray.hpp:68-75 | every offset below the element count is the offset of some in-bounds tuple (linearization is onto) |
| Layout.UnravelOffset | sources/ndarray/NDArray.hpp:64-76 | unravelling a tuple's offset gives the tuple back |
| Layout.OffsetInjective | sources/ndarray/NDArray.hpp:64-76 | distinct in-bounds tuples address distinct elements |
| Layout.Squeezed | sources/ndarray/NDArray.hpp:22-25 | the intended squeeze (filter `s > 1`): every size left is above 1, every size above 1 keeps its count, the shape does not grow |
| Layout.SqueezedSingle | sources/ndarray/NDArray.hpp:23 | a single dimension is dropped exactly when its size is 0 or 1 |
| Layout.SqueezedConcat | sources/ndarray/NDArray.hpp:23 | the intended squeeze filters piece by piece and keeps the kept sizes in their original order |
| Layout.SqueezedProduct | sources/ndarray/NDArray.hpp:151-153 | for shapes without a size-0 dimension, squeezing would leave the element count, and so reshape's size check, unchanged |
| Layout.SqueezedDropsZeroSizes | sources/ndarray/NDArray.hpp:23 | a shape with a size-0 dimension describes no elements but squeezes to a shape describing at least one, so on an array without elements the intended squeeze would refuse it |
| Layout.SqueezedAdmitsZeroShape | sources/ndarray/NDArray.hpp:22-25 | for n > 1, `{0, n}` describes no elements but squeezes to `{n}`, so on an array of n elements the intended squeeze would accept it where reshape's check refuses it |
| Elementwise.TruncDiv | sources/ndarray/NDArray.hpp:110 | C++ `/` on int: the remainder is smaller than the divisor and carries the dividend's sign |
| Elementwise.TruncDivOfMultiple | sources/ndarray/NDArray.hpp:142 | dividing x*k by a nonzero k gives x |
| Elementwise.ScalarAddThenSub | sources/ndarray/NDArray.hpp:94-102 | `+= k` then `-= k` restores every element |
| Elementwise.ScalarMulThenDiv | sources/ndarray/NDArray.hpp:104-112 | `*= k` then `/= k` restores every element for k != 0 |
| Elementwise.ZippedAddThenSub | sources/ndarray/NDArray.hpp:114-128 | `+= b` then `-= b` restores every element |
| Elementwise.ZippedMulThenDiv | sources/ndarray/NDArray.hpp:130-144 | `*= b` then `/= b` restores every element when b has no zero |
| Elementwise.ZippedWithConstant | sources/main.cpp:12-14 | an array operand filled with k acts as the scalar k |
| NDArrays.CheckedOffset | sources/ndarray/NDArray.hpp:64-75 | as written: Ok exactly for in-bounds tuples; RankMismatch when the index count differs from dim(), otherwise IndexOutOfRange; the offset is below product(shape) and unravels back to the indices |
| NDArrays.EmptyArrayOffsetPastEnd | sources/ndarray/NDArray.hpp:64-76 | an Empty array passes both checks with `{}` and gets offset 0, past its element count |
| NDArrays.ShapeCheckAdmitsShortOperand | sources/ndarray/NDArray.hpp:114-118 | an Empty array and a rank-0 array are both well formed with equal shapes but different element counts |
| NDArrays.ConformableVersusShapeCheck | sources/ndarray/NDArray.hpp:115 | on well-formed arrays the corrected operand check differs from the shape check only for an Empty / rank-0 pair |
| NDArrays.NDArray.constructor | sources/ndarray/NDArray.hpp:50 | the default constructor gives the Empty state, no elements and no dimensions |
| NDArrays.NDArray.Filled | sources/ndarray/NDArray.hpp:52-56 | product(shape) elements, all equal to the fill value, with the shape kept exactly as given |
| NDArrays.NDArray.FromFlat | sources/ndarray/NDArray.hpp:58 | the elements unchanged and the shape a single dimension equal to their count, so an empty input has one dimension of size 0 |
| NDArrays.NDArray.Locate | sources/ndarray/NDArray.hpp:79-90 | the offset loop computes exactly CheckedOffset: the row-major offset, or the first failing check |
| NDArrays.NDArray.Get | sources/ndarray/NDArray.hpp:79-92 | corrected read: the element at the row-major offset exactly when the tuple is in bounds and the array is not Empty; otherwise the error kind |
| NDArrays.NDArray.Set | sources/ndarray/NDArray.hpp:64-77 | corrected write: only the addressed slot takes the value; on failure nothing changes |
| NDArrays.NDArray.ApplyScalar | sources/ndarray/NDArray.hpp:94-112 | every element becomes `old op value`; the length and the shape are unchanged; dividing no elements by zero is allowed |
| NDArrays.NDArray.ApplyAliasedScalar | sources/ndarray/NDArray.hpp:94-112 | as written, with the scalar a reference to element k: positions up to k combine with its old value, later ones with its updated value |
| Elementwise.AliasedMatchesCopy | sources/ndarray/NDArray.hpp:94-102 | for `+=` and `-=` with an aliased element that is not the last, the result equals combining with a copy exactly when that element is 0 |
| NDArrays.AliasedScalarDivision | sources/ndarray/NDArray.hpp:109-111 | `a /= a({0})` on {2,4,6} gives {1,4,6}, where dividing by a copy gives {1,2,3} |
| NDArrays.NDArray.ApplyArray | sources/ndarray/NDArray.hpp:114-144 | fails with ShapeMismatch, changing nothing, unless shapes and element counts match; otherwise each element becomes `old op other` at the same position, shape unchanged, also when other is the same array |
| NDArrays.NDArray.Reshape | sources/ndarray/NDArray.hpp:150-161 | succeeds iff product(new shape) equals the element count; on success the shape is the requested one verbatim; the elements never move; on failure the shape is unchanged |
| NDArrays.NDArray.Clear | sources/ndarray/NDArray.hpp:163-167 | the Empty state: dim() and size() are 0 |
| NDArrays.NDArray.Dim | sources/ndarray/NDArray.hpp:169-171 | the number of dimensions: with none the array holds at most one element, with some their product is size() |
| NDArrays.NDArray.Size | sources/ndarray/NDArray.hpp:173-175 | the element count: the product of a non-empty shape, and at most one element under the empty shape |
| NDArrays.NDArray.Shape | sources/ndarray/NDArray.hpp:177-179 | a non-empty shape describes exactly size() elements |
| Scenario.DemoOffset | sources/ndarray/NDArray.hpp:64-76 | in the {2,3,4} array of the demonstration, index (1,2,3) passes both checks at offset 23 |
| Scenario.DemoScenario | sources/main.cpp:7-15 | {2,3,4} of 1s: index (1,2,3) is offset 23; after reshape {2,12}, `+= 1` and `-=` {2,12} of 1s, shape {2,12} and 24 ones |
| Scenario.ErrorScenario | sources/ndarray/NDArray.hpp:64-72 | on {2,3,4}, (2,0,0) is IndexOutOfRange and (0,0) is RankMismatch; {2,3} plus {3,2} is ShapeMismatch |
| Scenario.ReshapeRoundTrip | sources/ndarray/NDArray.hpp:150-161 | reshape to s and back to the original shape restores shape and elements |
| Scenario.EmptyReshapeIsOneWay | sources/ndarray/NDArray.hpp:152-155 | the Empty array reshapes to {0} but not back to {} |
| Scenario.ScalarRoundTrip | sources/ndarray/NDArray.hpp:94-102 | `a += k; a -= k;` leaves elements and shape as they were |
| Scenario.SetThenGet | sources/ndarray/NDArray.hpp:64-92 | reading back a successful write gives the written value; a failed write fails the read the same way |
| Scenario.SqueezeIsInert | sources/ndarray/NDArray.hpp:22-25 | a {2,1,12} array keeps its size-1 dimension; the intended squeeze would give {2,12} with the same count |

## Findings

| source | as written | input that shows it | evidently intended | confidence | as-written member | corrected member |
|---|---|---|---|---|---|---|
| sources/ndarray/NDArray.hpp:114-118 | the array operators compare only `m_shape`, then `std::transform` reads `m_data.size()` elements of `other` | `NDArray<int> a({}, 5); a += NDArray<int>();`: both shapes are `{}`, but `other` has no element to read | equal shapes were meant to imply equal element counts; a pair with different counts is rejected as a shape mismatch | not executed; high | NDArrays.ShapeCheckAdmitsShortOperand | NDArrays.NDArray.ApplyArray |
| sources/ndarray/NDArray.hpp:64-76 | `operator()` checks the rank and each index, then returns `m_data[index]` | `NDArray<int> a; a({});`: rank 0 matches, the loop runs zero times, and `m_data[0]` is read from an empty vector | indexing an array with no elements fails | not executed; high | NDArrays.EmptyArrayOffsetPastEnd | NDArrays.NDArray.Get |
| sources/ndarray/NDArray.hpp:94-112 | the scalar operators capture `const T& value` by reference and re-read it for every element | `NDArray<int> a(std::vector<int>{2, 4, 6}); a /= a({0});` gives {1, 4, 6} | every element is combined with the scalar's value at the call, giving {1, 2, 3} | not executed; medium | NDArrays.AliasedScalarDivision | NDArrays.NDArray.ApplyScalar |

## Left out

- Element type: `T` is fixed to `int`, and integers are unbounded. Signed overflow in `+ - * /` is not modelled (for `/`, the one case is the most negative value divided by -1).
- Overflow: the element count is an unbounded `nat`. The source computes it in `int`, with `std::multiplies<std::size_t>`, so very large shapes could wrap. This is not modelled.
- Division by zero: it is undefined in C++. `ApplyScalar` requires a nonzero scalar only when the array has elements, since `NDArray<int> e; e /= 0;` divides nothing. `ApplyArray` requires the divisors it uses to be nonzero. `ApplyAliasedScalar` and `AliasedMapped` require the referenced element to be nonzero for `/=`; the element it becomes after dividing itself is 1, so later divisions are defined.
- NDArrays.NDArray.ApplyArray: when `this` is Empty and `other` is rank-0, the source succeeds and changes nothing, while the model reports ShapeMismatch. This follows the corrected check in the findings.
- NDArrays.NDArray.ApplyScalar: the scalar is taken by value, so an operand that refers to an element of the same array is not re-read. That case is modelled as written by `ApplyAliasedScalar`, for a reference given by its flat offset.
- NDArrays.NDArray.Get: on the Empty array with indices `{}`, the model reports IndexOutOfRange. The source reads out of bounds.
- NDArrays.NDArray.Set: on the Empty array with indices `{}`, the model reports IndexOutOfRange. The source writes to `m_data[0]` of an empty vector.
- References and chaining: `operator()` returns a `T&`, and the compound operators return `*this`. The model reads with `Get` and writes with `Set`. The operators return an `Outcome` and do not chain.
- `operator<<`: stream output is not modelled.
- `is_sub_shape`: it does not compile, and nothing calls it.
- Exception messages: only the error kind is kept, not the text.
- `sources/vector/*` and `sources/matrix/*`: these are floating-point `double` containers and are not part of this model. `sources/main.cpp` is used only as the `DemoScenario` script; its console output is not modelled.
