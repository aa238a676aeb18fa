# tense: a fixed-shape integer tensor, modelled in Dafny

`tense::Tensor<T, Dims...>` is a header-only value type: a numeric array whose
shape (a list of dimension lengths) is part of its type and whose
`prod(Dims)` elements live in an inline buffer. It offers zero, fill and
copy-from-array construction, a dimension-length query, one element accessor
per rank (1 to 4 indices) that turns a multi-index into a flat offset,
element-wise binary `+ - * /` returning a new tensor, compound
`+= -= *= /=` working in place, an in-place unary minus and element-wise
assignment.

The model instantiates the element type at integers and admits shapes of one
to four positive dimensions, the ranks the accessors serve:

- `shape.dfy` (module `Shape`): valid shapes, the capacity, and the four
  offset formulas, copied exactly. Lemmas establish which index ranges keep
  them inside the buffer.
- `scalar.dfy` (module `Scalar`): C++ integer division, which truncates toward
  zero. `TruncDiv` is pinned down by the C++ remainder rule. A lemma shows
  that this rule has exactly one solution.
- `elementwise.dfy` (module `Elementwise`): the four operations and negation
  stated on flat contents (`Combine`, `Negated`), with lemmas relating them.
- `tensor.dfy` (module `Tense`): class `Tensor`. Its shape is `const dims`.
  Its inline buffer is `const data: array<int>`: the storage is never replaced,
  only written. `FromArray`, `FromPointer`, `Zip`, `ZipInPlace`, `Negate` and
  `Assign` are loops over flat positions with their invariants. `Zeros` and
  `Filled` use array initialisers. `Plus`, `Minus`, `Times` and `Quotient`
  call `Zip`. `AddAssign`, `SubAssign`, `MulAssign` and `DivAssign` call
  `ZipInPlace`.
- `scenarios.dfy` (module `Scenarios`): client methods that use only the
  contracts. They cover reading back a constructed rank-2 tensor
  (`ReadBackRank2`), the (3, 4) indexing example (`IndexingExample`), copy
  semantics of assignment (`AssignmentCopies`), compound operators agreeing
  with binary ones (`CompoundMatchesBinary`), a default-constructed tensor
  being neutral for `+` (`PlusZeros`), binary minus agreeing with unary minus
  followed by `+` (`MinusIsPlusNegated`), `*` followed by `/` restoring the
  left operand (`TimesThenQuotient`), and unary minus undoing itself
  (`NegateTwice`).

The rank-1 offset is the index itself (`Offset1`). The rank-2 to rank-4
offset formulas (`Offset2`, `Offset3`, `Offset4`) are not canonical
row-major. Ranks 2 to 4 use `dims[0]` as the stride of their first index,
and ranks 3 and 4 reuse `dims[0]` and `dims[1]`. Each accessor therefore requires `offset < capacity` rather than
per-index bounds, and no general round trip is claimed. For rank 2, reading
`i` below `dims[0]` and `j` below `dims[1]` makes the accessor a bijection
onto the buffer (`Offset2InRange`, `Offset2Injective`, `Offset2Decompose`).
Reading the first index below `dims[0]` instead leaves the buffer whenever
`dims[0] > dims[1]` (`Offset2EscapesInDimOrder`). For example, dims (3, 1)
with j = 2 and i = 0 gives 6, and the capacity is 3. In ranks 3 and 4,
in-range indices can share cells and miss others, for example on (2, 2, 2)
and (2, 2, 2, 2) (`Offset3SharesAndMisses`, `Offset4ReachesHalf`). On other
shapes, such as (1, 2, 2), they happen to cover the buffer exactly.

Where the source would not compile as written, the model follows its evident
intent:

- `other->data` on a reference is read as `other.data`.
- `foo[i]` on the result tensor is read as a write to its buffer.
- `return *this` from the `void` unary minus is dropped.
- `static_assert` on `dim_len`'s runtime argument becomes a precondition.
- The four accessors are `const` member functions returning `T&` into
  `this->data`, which binds a non-const reference to a const element. Each is
  modelled as a read (`GetN`) and a write (`SetN`) of the same cell.
- `operator=` returns `This&`. `Assign` returns nothing, because the
  reference is only the receiver itself.

## Model

| member | source | states |
|---|---|---|
| Shape.Capacity | tense/tense.hpp:37-39 | the buffer size is the product of the dimensions; for non-zero dimensions it is positive and no dimension exceeds it |
| Shape.Offset2InRange | tense/tense.hpp:76-81 | with i < dims[0] and j < dims[1], the rank-2 offset j*dims[0]+i is below the capacity |
| Shape.Offset2Injective | tense/tense.hpp:76-81 | with i, i' < dims[0], equal rank-2 offsets mean equal index pairs |
| Shape.Offset2Decompose | tense/tense.hpp:76-81 | every flat position p is the rank-2 offset of the in-range pair (p / dims[0], p % dims[0]) |
| Shape.Offset2EscapesInDimOrder | tense/tense.hpp:76-81 | when dims[0] > dims[1], the pair (dims[0]-1, dims[1]-1), each below "its" dimension, lands at or past the capacity |
| Shape.Offset3SharesAndMisses | tense/tense.hpp:82-87 | on shape (2,2,2) two in-range triples share cell 2 and no in-range triple reaches cells 6 and 7 |
| Shape.Offset4ReachesHalf | tense/tense.hpp:88-95 | on shape (2,2,2,2) in-range quadruples reach only cells 0 to 7 of 16 |
| Scalar.TruncDiv | tense/tense.hpp:139-151 | integer `/` leaves a remainder smaller than the divisor and never of the opposite sign to the dividend; it equals Euclidean division for non-negative operands |
| Scalar.TruncDivUnique | tense/tense.hpp:143 | any quotient meeting the C++ remainder rule is TruncDiv's |
| Scalar.TruncDivOfMultiple | tense/tense.hpp:143 | (x*y)/y == x for y != 0 |
| Scalar.TruncDivNegate | tense/tense.hpp:143 | (-x)/y == -(x/y): division truncates toward zero |
| Scalar.TruncDivIsNotEuclidean | tense/tense.hpp:143 | -7/2 is -3 under the source's division and -4 under Dafny's |
| Elementwise.Combine | tense/tense.hpp:97-151 | the reference contents of `a op b`: the same length, with the scalar operation (C++ division for `/`) applied at every flat position |
| Elementwise.Negated | tense/tense.hpp:153-158 | the reference contents of unary minus: the same length, every element multiplied by -1 |
| Elementwise.NegatedTwice | tense/tense.hpp:153-158 | negating every element twice restores the contents |
| Elementwise.MulThenDiv | tense/tense.hpp:125-145 | (a * b) / b == a element-wise when no divisor is zero |
| Elementwise.NegatedThenDiv | tense/tense.hpp:139-158 | dividing the negated contents gives the negated quotients |
| Tense.Tensor.Zeros | tense/tense.hpp:43-44 | a fresh buffer of exactly Capacity(dims) elements, all zero |
| Tense.Tensor.Filled | tense/tense.hpp:46-49 | a fresh buffer of the capacity with every element equal to x |
| Tense.Tensor.FromArray | tense/tense.hpp:51-56 | a fresh buffer equal element for element to the input of length capacity |
| Tense.Tensor.FromPointer | tense/tense.hpp:58-64 | a fresh buffer equal to the first capacity elements of an input at least that long |
| Tense.Tensor.DimLen | tense/tense.hpp:66-69 | dim_len(i) is dims[i] for i below the rank, positive and at most the capacity |
| Tense.Tensor.Get1 | tense/tense.hpp:71-75 | reads data[Offset1(i)], the cell at index i; an in-range index is below dims[0] |
| Tense.Tensor.Set1 | tense/tense.hpp:71-75 | writes data[Offset1(i)] = data[i] and no other element |
| Tense.Tensor.Get2 | tense/tense.hpp:76-81 | reads data[Offset2(dims, j, i)] = data[j*dims[0]+i], requiring that offset below the capacity |
| Tense.Tensor.Set2 | tense/tense.hpp:76-81 | writes data[Offset2(dims, j, i)] = data[j*dims[0]+i] and no other element |
| Tense.Tensor.Get3 | tense/tense.hpp:82-87 | reads data[Offset3(dims, k, j, i)] = data[k*dims[0]+j*dims[1]+i], requiring that offset below the capacity |
| Tense.Tensor.Set3 | tense/tense.hpp:82-87 | writes data[Offset3(dims, k, j, i)] = data[k*dims[0]+j*dims[1]+i] and no other element |
| Tense.Tensor.Get4 | tense/tense.hpp:88-95 | reads data[Offset4(dims, l, k, j, i)] = data[l*dims[0]+k*dims[1]+j*dims[2]+i], requiring that offset below the capacity |
| Tense.Tensor.Set4 | tense/tense.hpp:88-95 | writes data[Offset4(dims, l, k, j, i)] = data[l*dims[0]+k*dims[1]+j*dims[2]+i] and no other element |
| Tense.Tensor.Zip | tense/tense.hpp:97-103 | a binary operator returns a fresh same-shape tensor whose contents are Combine(op, this, other); neither operand changes |
| Tense.Tensor.Plus | tense/tense.hpp:97-103 | result[p] == this[p] + other[p] at every flat position, so the contents are Combine(Add, this, other), in a fresh same-shape tensor |
| Tense.Tensor.Minus | tense/tense.hpp:111-117 | result[p] == this[p] - other[p] at every flat position, so the contents are Combine(Sub, this, other), in a fresh same-shape tensor |
| Tense.Tensor.Times | tense/tense.hpp:125-131 | result[p] == this[p] * other[p] at every flat position, so the contents are Combine(Mul, this, other), in a fresh same-shape tensor |
| Tense.Tensor.Quotient | tense/tense.hpp:139-145 | result[p] is this[p] / other[p] truncated toward zero, so the contents are Combine(Div, this, other), given no zero divisor |
| Tense.Tensor.ZipInPlace | tense/tense.hpp:105-109 | a compound operator leaves Combine(op, old this, old other) in this, also when other shares the buffer; a distinct other is unchanged |
| Tense.Tensor.AddAssign | tense/tense.hpp:105-109 | data[p] == old(data[p]) + old(other[p]) everywhere; a distinct other is unchanged |
| Tense.Tensor.SubAssign | tense/tense.hpp:119-123 | data[p] == old(data[p]) - old(other[p]) everywhere; a distinct other is unchanged |
| Tense.Tensor.MulAssign | tense/tense.hpp:133-137 | data[p] == old(data[p]) * old(other[p]) everywhere; a distinct other is unchanged |
| Tense.Tensor.DivAssign | tense/tense.hpp:147-151 | data[p] is old(data[p]) / old(other[p]) truncated toward zero, given no zero divisor |
| Tense.Tensor.Negate | tense/tense.hpp:153-158 | unary minus multiplies every element by -1 in place |
| Tense.Tensor.Assign | tense/tense.hpp:160-165 | assignment leaves this tensor's own buffer equal to other's contents |
| Scenarios.ReadBackRank2 | tense/tense.hpp:51-81 | a rank-2 tensor built from S and read with the accessor in (j, i) order yields S |
| Scenarios.IndexingExample | tense/tense.hpp:76-81 | shape (3, 4) built from 0..11 holds 5 at (1, 2) |
| Scenarios.AssignmentCopies | tense/tense.hpp:160-165 | after a = b, writing into b does not change a |
| Scenarios.CompoundMatchesBinary | tense/tense.hpp:97-109 | after a += b, a holds what a + b returned |
| Scenarios.PlusZeros | tense/tense.hpp:43-103 | a tensor plus a default-constructed tensor of its shape has the same contents |
| Scenarios.MinusIsPlusNegated | tense/tense.hpp:97-158 | a - b has the same contents as a + c, where c is a copy of b negated by unary minus |
| Scenarios.TimesThenQuotient | tense/tense.hpp:125-145 | (a * b) / b has the contents of a when b has no zero element |
| Scenarios.NegateTwice | tense/tense.hpp:153-158 | unary minus applied twice restores the tensor |

## Left out

- Shapes with a zero-length dimension or more than four dimensions: excluded by ValidShape. The template accepts them (an empty buffer, or a rank-5 tensor whose constructors and operators work), but no accessor serves more than four indices, and the model fixes the shape to one to four positive dimensions.
- Floating-point element types: the element type is fixed to integers.
- Fixed-width overflow: integers are unbounded. Overflow of `T` in `+ - *`, `INT_MIN / -1`, and `std::size_t` overflow in the capacity and offsets are not modelled.
- Tense.Tensor.Quotient: a zero divisor is excluded by a precondition. In the source it is undefined behaviour of the scalar type, not a defined result.
- Tense.Tensor.DivAssign: a zero divisor is excluded by a precondition, as for Quotient.
- Tense.Tensor.FromPointer: `std::to_array` on a raw pointer is a foreign library call. It is modelled as copying the first capacity elements of an array that holds at least that many.
- Compile-time machinery is not modelled as types. This covers the `is_arithmetic` base class, the `static_assert` arity checks, `constexpr`, `noexcept` and `always_inline`. Arity and shape agreement are preconditions (`|dims| == r`, `other.dims == dims`).
- The accessors return mutable references. Each accessor is modelled as a read (`GetN`) and a write (`SetN`) of the same cell.
- Unique ownership of the inline buffer is not an invariant. Constructors and binary operators return fresh buffers. A compound operator or assignment whose operand shares the receiver's buffer is still specified, because each step touches one position only.
- The implicit copy constructor used by the binary operators is modelled as `FromArray` applied to the right operand.
- Concurrency: the type has none.
