# RustTensors address model in Dafny

This project models the core of the RustTensors crate. That core is the
address and bound arithmetic behind a dense, rectangular, N-dimensional
store, the iteration order that fills the store, and the two-dimensional
`Matrix` built on them. An address is a fixed-length sequence of integer
coordinates, with dimension 0 first. An `AddressBound` is an inclusive box
given by its smallest and largest corners.

Storage is linear. The box maps onto the indices `0 .. volume - 1` by
mixed-radix encoding, with dimension 0 as the least significant digit. The
iterator visits the box in the same order, so the k-th address it yields has
linear index k. `Matrix` stores its cells in that order and finds them
through that index.

Modules, one per source file, plus two support modules (`Wrappers` and
`Radix`):

- `Wrappers` holds `Option`, `Result` and `Ordering`, plus the three-way
  integer comparison that `i64::cmp` performs.
- `Addressable` holds the trait's default methods `add`, `subtract`,
  `difference` and `scale`, over coordinate sequences.
- `MatrixAddresses` holds `MatrixAddress { x, y }`:
  - `get_item_at_dimension_index` and `get_mut_item_at_dimension_index`;
  - `new_from_value_vec`;
  - the hand-written `partial_cmp`, which compares `y` first and `x` second.
- `Radix` holds the mixed-radix mathematics, as functions of
  `(address, low, high)`:
  - `Volume`, the number of addresses;
  - `Offset`, the linear index;
  - `Digits`, the decoding;
  - `Carry`, what is left of an index after decoding.
  It also holds the bijection and odometer-step lemmas.
- `AddressBounds` holds `AddressBound` from `src/address_bound.rs`:
  - the loops of `contains_address`, `index_address` and
    `get_address_from_index` as methods proved against `Radix`;
  - `AddressIterator` (the odometer over an `abacus` vector) as a class;
  - the two-dimensional facts that the crate's tests check.
- `ExclusiveIteration` holds the second odometer from
  `src/address_iterator.rs`. It has an exclusive upper bound and a position
  array that starts one step before the lower corner. It is a class over an
  `array<int>`.
- `Matrices` holds `Matrix<T>`, a class with `data: seq<T>` and a 2-D bound.
  It models `new`, `get`, `get_mut`, `set`, `to_display_string`, `Display`
  and the derived equality.
- `Tensors` holds the `Tensor` trait's default methods, written for its one
  implementation `Matrix`:
  - `address_iterator`, `transform`, `transform_by_address`,
    `transform_in_place`, `transform_by_address_in_place` and `eq`;
  - method-level versions of the crate's equality and in-place tests.

Behaviour of the code worth knowing:
- `Display` passes `" "` as `row_delimiter` and `"\n"` as
  `column_delimiter`, so the parameter names are the reverse of their roles:
  `row_delimiter` goes between cells and `column_delimiter` after every cell
  whose position (counting from 1) is a multiple of `largest.x + 1`. A
  delimiter also follows the final cell.
- The inclusive iterator is not fused. After its first `None` it stands at
  `Rewound(bounds)` and a further call goes on from there; it yields again
  unless every dimension below the last has extent 1.
  `AddressIterator.Next` states exactly where it stands at that point.

## Model

| member | source | states |
|---|---|---|
| Wrappers.Compare | src/matrix_address.rs:13-15 | `i64::cmp`: `Less` iff a < b, `Equal` iff a == b, `Greater` iff a > b |
| Addressable.Add | src/addressable.rs:5-15 | the result has the dimension count of the inputs and coordinate d is `a[d] + b[d]` |
| Addressable.Subtract | src/addressable.rs:16-26 | coordinate d is `a[d] - b[d]`, for every dimension |
| Addressable.Difference | src/addressable.rs:27-38 | coordinate d is non-negative and is `a[d] - b[d]` or `b[d] - a[d]`, i.e. the absolute difference |
| Addressable.Scale | src/addressable.rs:51-60 | coordinate d is `a[d] * scalar`, for every dimension |
| Addressable.AddThenSubtract | src/matrix_address.rs:93 | `subtract(add(a, b), b) == a` |
| Addressable.SubtractThenAdd | src/matrix_address.rs:94 | `add(subtract(a, b), b) == a` |
| Addressable.AddCommutes | src/addressable.rs:9-12 | `add(a, b) == add(b, a)` |
| Addressable.DifferenceSymmetric | src/addressable.rs:27-38 | `difference(a, b) == difference(b, a)`, and `difference(a, a)` is the zero address |
| Addressable.ScaleByOne | src/addressable.rs:51-60 | scaling by 1 is the identity |
| MatrixAddresses.ItemsDetermineAddress | src/matrix_address.rs:26-43 | the indices below `get_dimension_count()` = 2 reach every field: two addresses are equal iff `get_item_at_dimension_index` agrees at each index |
| MatrixAddresses.WriteBackItem | src/matrix_address.rs:37-51 | writing back through `get_mut_item_at_dimension_index(d)` the value `get_item_at_dimension_index(d)` read leaves the address unchanged |
| MatrixAddresses.MatrixAddress.Values | src/matrix_address.rs:37-43 | the address seen by dimension index has `get_dimension_count()` = 2 entries, entry d being `get_item_at_dimension_index(d)` |
| MatrixAddresses.MatrixAddress.WithItem | src/matrix_address.rs:45-51 | writing through `get_mut_item_at_dimension_index(d)` sets coordinate d and leaves the other coordinate unchanged |
| MatrixAddresses.FromValues | src/matrix_address.rs:30-35 | `new_from_value_vec` takes `x` from `values[0]` and `y` from `values[1]` and ignores later entries |
| MatrixAddresses.ValuesRoundTrip | src/matrix_address.rs:30-43 | `new_from_value_vec` and `get_item_at_dimension_index` are inverse to each other on two-entry vectors |
| MatrixAddresses.PartialCmp | src/matrix_address.rs:11-23 | `partial_cmp` always returns `Some`: any two addresses are comparable |
| MatrixAddresses.PartialCmpLexicographic | src/matrix_address.rs:11-23 | `Some(Less)` iff `y` is smaller, or `y` ties and `x` is smaller; `Some(Greater)` the same way round |
| MatrixAddresses.PartialCmpEqualIff | src/matrix_address.rs:15-17 | `Some(Equal)` iff both coordinates match |
| MatrixAddresses.PartialCmpAntisymmetric | src/matrix_address.rs:11-23 | a < b iff b > a |
| MatrixAddresses.PartialCmpTransitive | src/matrix_address.rs:11-23 | a < b and b < c give a < c, so `partial_cmp` is a strict total order |
| MatrixAddresses.AddSubtractAccuracy | src/matrix_address.rs:109-110 | at the 2-D instance `add` gives `(x1 + x2, y1 + y2)` and `subtract` gives `(x1 - x2, y1 - y2)`, and each undoes the other |
| Radix.OffsetInRange | src/address_bound.rs:50-62 | the linear index of an address inside the box lies in `[0, volume)` |
| Radix.DigitsWithin | src/address_bound.rs:69-80 | every decoded digit lies between the two corners |
| Radix.DigitsOfOffset | src/address_bound.rs:44-85 | decoding an address's linear index gives the address back |
| Radix.OffsetOfDigits | src/address_bound.rs:44-85 | encoding the decoding of an index below the volume gives the index back |
| Radix.CarryZeroIff | src/address_bound.rs:81-83 | the quotient left after decoding is zero iff the index is below the volume |
| Radix.OffsetOfAdvance | src/address_bound.rs:108-127 | the odometer step stays inside the box and adds exactly one to the linear index, when it resets dimensions 0..d-1 (all at their top) and increments dimension d (below its top) |
| AddressBounds.AddressBound.AddressAt | src/address_bound.rs:66-85 | the address decoded from any index has the dimension count and lies inside the bound |
| AddressBounds.OffsetRoundTrip | src/address_bound.rs:156-161 | for a contained address, `index_address` is below the volume and `get_address_from_index(index_address(a)) == a` |
| AddressBounds.AddressAtRoundTrip | src/address_bound.rs:156-161 | for i below the volume, the decoded address is contained and `index_address` of it is i |
| AddressBounds.SmallestIsFirst | src/address_bound.rs:97-107 | the smallest corner has index 0 and is the first address |
| AddressBounds.LargestIsLast | src/address_bound.rs:115-117 | the largest corner has index volume - 1 and is the last address |
| AddressBounds.OffsetInjective | src/address_bound.rs:44-65 | two contained addresses have the same linear index iff they are equal |
| AddressBounds.AddressAtInjective | src/address_bound.rs:66-85 | two indices below the volume decode to the same address iff they are equal |
| AddressBounds.ContainsAddress | src/address_bound.rs:10-25 | `contains_address` is true iff `low[d] <= a[d] <= high[d]` for every d |
| AddressBounds.IndexAddress | src/address_bound.rs:44-65 | `None` iff the address is outside; otherwise the Horner accumulation from the last dimension down equals the mixed-radix index, which is below the volume and decodes back to the address |
| AddressBounds.GetAddressFromIndex | src/address_bound.rs:66-85 | `Err(IndexTooLarge)` iff the index is at least the volume; otherwise the decoded address, which is contained and whose `index_address` is the index |
| AddressBounds.AddressIterator.constructor | src/address_bound.rs:27-35 | `iter` copies the bound and starts with an empty abacus |
| AddressBounds.AddressIterator.Next | src/address_bound.rs:96-129 | empty abacus: yields the smallest corner. At index k: yields the address with index k + 1 when k + 1 is below the volume. At the last index: `None`, leaving every dimension but the last reset to its lower bound |
| AddressBounds.StepPastLargest | src/address_bound.rs:115-117 | the carry out of the last dimension happens only from the largest corner, and leaves the abacus at the lower corner except in the last dimension |
| AddressBounds.StepWithinBox | src/address_bound.rs:108-127 | a carry that stops at dimension d yields the address with the next linear index |
| AddressBounds.CollectAddresses | src/address_bound.rs:172-173 | running a fresh iterator to its first `None` yields exactly volume addresses; each is contained, and the k-th has `index_address == k` |
| AddressBounds.MatrixOffset | src/address_bound.rs:159 | in two dimensions the linear index is `(y - y1) * (x2 - x1 + 1) + (x - x1)` |
| AddressBounds.MatrixOffsetOrder | src/address_bound.rs:144 | inside a 2-D box, a smaller linear index iff `partial_cmp` is `Less` |
| AddressBounds.IterationSorted | src/address_bound.rs:139-145 | for i < j the i-th iterated address is strictly `Less` than the j-th: the iteration is sorted |
| AddressBounds.TwoByTwo | src/address_bound.rs:96-129 | the box (0,0)..(1,1) has volume 4 and is visited as (0,0), (1,0), (0,1), (1,1) |
| ExclusiveIteration.CountIsVolume | src/address_iterator.rs:43-55 | the product of `upper[d] - lower[d]` is the volume of the inclusive box with top `upper - 1` |
| ExclusiveIteration.AddressIterator.constructor | src/address_iterator.rs:19-31 | `new` keeps both bounds and starts at the lower bounds with dimension 0 lowered by one, in a fresh array |
| ExclusiveIteration.AddressIterator.Next | src/address_iterator.rs:42-56 | from the start position: yields the lower bounds. Inside the box at index k: yields the position with index k + 1 while that is below the product of the extents. At the last index: `None`, with every coordinate back at its lower bound |
| ExclusiveIteration.StartIsOutside | src/address_iterator.rs:23-24 | the start position lies outside the box, and the lower bounds, which the first step reaches, lie inside it |
| ExclusiveIteration.FirstStep | src/address_iterator.rs:44-49 | from the start position the first step increments dimension 0 and reaches the lower bounds |
| ExclusiveIteration.LaterStep | src/address_iterator.rs:43-53 | incrementing the lowest dimension that can move, with the dimensions below it reset, gives the next linear index inside the box |
| ExclusiveIteration.StepInside | src/address_iterator.rs:43-53 | the same step stated over the inclusive top corner |
| ExclusiveIteration.ExclusiveEnd | src/address_iterator.rs:50-55 | the loop runs out only from the last position, and then every coordinate is back at its lower bound |
| ExclusiveIteration.CollectPositions | src/address_iterator.rs:43-55 | a fresh iterator yields exactly the product of `upper[d] - lower[d]` positions before `None`. They are pairwise distinct, satisfy `lower[d] <= p[d] < upper[d]`, and come with dimension 0 fastest: the k-th has linear index k |
| Matrices.Lookup | src/matrix.rs:24-29 | `Some` only for a contained address and then the cell at its linear index; always `Some` inside when the data has one cell per address |
| Matrices.Matrix.New | src/matrix.rs:16-22 | cell k holds the converter's value for the k-th iterated address, there are volume cells, and `get(a)` is the converter's value at every contained a |
| Matrices.Matrix.Get | src/matrix.rs:24-29 | `Some` iff the address is contained, and then the cell at `index_address(a)` |
| Matrices.Matrix.GetMut | src/matrix.rs:31-37 | the slot returned exists iff `get` returns `Some`, is the address's linear index, and holds what `get` returns |
| Matrices.Matrix.Set | src/matrix.rs:39-48 | out of bounds: `Err` naming the address, data unchanged. Inside: only the cell at `index_address(a)` is replaced, `get(a)` returns the new value and `get` at every other address is unchanged |
| Matrices.Matrix.ToDisplayString | src/matrix.rs:56-76 | a non-empty rendering ends with a delimiter: `column_delimiter` when the cell count is a multiple of `largest.x + 1`, `row_delimiter` otherwise |
| Matrices.Matrix.Display | src/matrix.rs:79-87 | with smallest x at 0 the text ends with a newline, closing the last row |
| Matrices.Equals | src/matrix.rs:9 | the derived equality (same data, same bounds) makes `get` agree at every address |
| Matrices.RowEndDelimiter | src/matrix.rs:62-75 | with smallest x at 0, cell i is followed by `column_delimiter` iff its address has the largest x, and by `row_delimiter` otherwise |
| Matrices.LastCellEndsRow | src/matrix.rs:62-75 | with smallest x at 0 the rendering ends with the last cell's text and `column_delimiter` |
| Matrices.DisplayTwoByTwo | src/matrix.rs:79-87 | `Display` of the 2 x 2 matrix holding a, b, c, d is `"a b\nc d\n"` |
| Tensors.AddressIterator | src/tensor.rs:21-26 | `address_iterator` is a fresh `bounds().iter()` |
| Tensors.Transform | src/tensor.rs:28-36 | a new matrix over the same bounds whose cells are the images of the source's, with `get(a) == f(source.get(a))` at every contained a |
| Tensors.TransformByAddress | src/tensor.rs:38-46 | as `transform`, with `get(a) == f(a, source.get(a))` |
| Tensors.TransformInPlace | src/tensor.rs:49-56 | every cell is replaced by `f` of its old value, each exactly once, and the bounds stay |
| Tensors.TransformByAddressInPlace | src/tensor.rs:60-67 | cell k is replaced by `f(k-th address, old value)` |
| Tensors.ByAddressIgnoringAddress | src/matrix.rs:186-192 | a by-address mapping that ignores the address gives the same cells as the plain mapping |
| Tensors.CellsAgreeIffSameData | src/tensor.rs:78-79 | over one bound, `get` agreeing at every iterated address is the same as equal data |
| Tensors.Eq | src/tensor.rs:72-81 | `eq` (different bounds are unequal, otherwise `get` agrees at every iterated address) holds iff data and bounds are equal, the derived equality |
| Tensors.RebuiltMatricesEqual | src/matrix.rs:195-208 | two matrices built from the same bound and converter are `eq` |
| Tensors.InPlaceAgreesWithTransform | src/matrix.rs:174-193 | transforming a copy in place gives the matrix `transform` builds, and so does the by-address version with an address-ignoring mapping |

## Left out

- `distance` returns an `f64` through `sqrt`. Floating point is not modelled.
- The tests that call `scale` with an `f64`, `add_in_place` or
  `scale_in_place` use methods the trait does not define. Only the integer
  `scale` is modelled.
- `i64` and `usize` arithmetic is unbounded `int` here. Overflow in the
  coordinate sums, in the extents, and in `index_address`'s accumulator and
  casts is not modelled.
- Errors are datatypes. `set` returns `OutOfBounds(address)` in place of an
  `std::io::Error` with a formatted message. `get_address_from_index`
  returns `IndexTooLarge` in place of the text "Index is too large.".
- `Display` for `MatrixAddress` and the `Formatter` plumbing are not
  modelled. `display_func` is a function from a cell to a string, and
  `Display` uses a caller-supplied `T -> string` in place of `to_string`.
- AddressBounds.GetAddressFromIndex: requires a non-empty bound. A zero
  extent would make `%` and `/` panic. A negative extent is cast to a huge
  `usize`, which is not modelled.
- AddressBounds.AddressIterator.constructor: requires a non-empty bound. On
  an inverted bound the source still yields the smallest corner first, and
  that case is not modelled.
- Matrices.Matrix.New: requires a non-empty bound, for the same reason.
- ExclusiveIteration.AddressIterator.constructor: requires
  `lower[d] < upper[d]` in every dimension and at least one dimension.
- Matrices.Matrix.CellText: requires `largest.x + 1 != 0`, where the source
  would panic on a zero divisor. `high.x + 1` is used as written. Its
  delimiters line up with rows only when the smallest x is 0, which is why
  the row-end lemmas assume that.
- The derived `Ord` on `MatrixAddress` compares `x` before `y`. It
  disagrees with the hand-written `partial_cmp`, and only `partial_cmp` is
  modelled.
- The `Tensor` trait itself is not modelled as an abstraction. Its default
  methods are written once, for `Matrix`, its only implementation.
- `Matrix::bounds` is the field `bounds` itself, and
  `Tensor::new`'s generic result type is `Matrix`.
- `src/matrix_address.rs` implements `get_mut_item_at_dimension_index`,
  which the trait in `src/addressable.rs` does not declare. The model
  treats it as an ordinary function of `MatrixAddress`.
- Matrices.Matrix.GetMut: `Option<&mut T>` is modelled as the slot's index
  in `data`. The caller then writes `data` at that index itself, so the
  mutable reference is not a value of the model.
- `src/adressable.rs`, `src/lib.rs` and the crate's test harness are not
  part of this model.
