/**
 * tense::Tensor: a fixed-shape array of integers. The shape is fixed when the
 * tensor is made and the buffer holds exactly Capacity(dims) scalars; the
 * buffer is never replaced, only written in place.
 */
module Tense {
  import opened Shape
  import opened Elementwise

  class Tensor {
    /** The dimension lengths, fixed by the tensor's type. */
    const dims: seq<nat>
    /** The inline element buffer, in flat order. */
    const data: array<int>

    /** The shape is valid and the buffer holds exactly its capacity. */
    ghost predicate Valid()
    {
      ValidShape(dims) && data.Length == Capacity(dims)
    }

    /** Default construction: a buffer of the shape's capacity, all zero. */
    constructor Zeros(dims: seq<nat>)
      requires ValidShape(dims)
      ensures Valid() && this.dims == dims && fresh(data)
      ensures forall p :: 0 <= p < data.Length ==> data[p] == 0
    {
      this.dims := dims;
      data := new int[Capacity(dims)](_ => 0);
    }

    /** Fill construction: every element equal to x. */
    constructor Filled(dims: seq<nat>, x: int)
      requires ValidShape(dims)
      ensures Valid() && this.dims == dims && fresh(data)
      ensures forall p :: 0 <= p < data.Length ==> data[p] == x
    {
      this.dims := dims;
      data := new int[Capacity(dims)](_ => x);
    }

    /** Construction from a flat array of exactly the capacity: an element-for-element copy. */
    constructor FromArray(dims: seq<nat>, input: array<int>)
      requires ValidShape(dims) && input.Length == Capacity(dims)
      ensures Valid() && this.dims == dims && fresh(data)
      ensures data[..] == input[..]
    {
      this.dims := dims;
      data := new int[input.Length];
      new;
      var i := 0;
      while i < input.Length
        invariant 0 <= i <= input.Length
        invariant forall p :: 0 <= p < i ==> data[p] == input[p]
      {
        data[i] := input[i];
        i := i + 1;
      }
    }

    /**
     * Construction from a pointer to contiguous scalars: the first capacity
     * elements of `input` are copied; the caller must supply at least that many.
     */
    constructor FromPointer(dims: seq<nat>, input: array<int>)
      requires ValidShape(dims) && input.Length >= Capacity(dims)
      ensures Valid() && this.dims == dims && fresh(data)
      ensures data[..] == input[..Capacity(dims)]
    {
      this.dims := dims;
      data := new int[Capacity(dims)];
      new;
      var i := 0;
      while i < data.Length
        invariant 0 <= i <= data.Length
        invariant forall p :: 0 <= p < i ==> data[p] == input[p]
      {
        data[i] := input[i];
        i := i + 1;
      }
    }

    /** The length of dimension i: positive and never more than the capacity. */
    function DimLen(i: nat): (n: nat)
      requires Valid() && i < |dims|
      ensures n == dims[i] && 0 < n <= data.Length
    {
      dims[i]
    }

    /** Rank-1 read of element (i); an index in range is one below dims[0]. */
    method Get1(i: nat) returns (v: int)
      requires Valid() && |dims| == 1 && Offset1(i) < data.Length
      ensures v == data[Offset1(i)]
      ensures i < dims[0]
    {
      Capacity1(dims);
      v := data[Offset1(i)];
    }

    /** Rank-1 write of element (i): that cell becomes v, no other changes. */
    method Set1(i: nat, v: int)
      requires Valid() && |dims| == 1 && Offset1(i) < data.Length
      modifies data
      ensures data[..] == old(data[..])[Offset1(i) := v]
    {
      data[Offset1(i)] := v;
    }

    /**
     * Rank-2 read of element (j, i). With i below dims[0] and j below dims[1]
     * the offset is always in range.
     */
    method Get2(j: nat, i: nat) returns (v: int)
      requires Valid() && |dims| == 2 && Offset2(dims, j, i) < data.Length
      ensures v == data[Offset2(dims, j, i)]
    {
      v := data[Offset2(dims, j, i)];
    }

    /** Rank-2 write of element (j, i): that cell becomes v, no other changes. */
    method Set2(j: nat, i: nat, v: int)
      requires Valid() && |dims| == 2 && Offset2(dims, j, i) < data.Length
      modifies data
      ensures data[..] == old(data[..])[Offset2(dims, j, i) := v]
    {
      data[Offset2(dims, j, i)] := v;
    }

    /** Rank-3 read of element (k, j, i). */
    method Get3(k: nat, j: nat, i: nat) returns (v: int)
      requires Valid() && |dims| == 3 && Offset3(dims, k, j, i) < data.Length
      ensures v == data[Offset3(dims, k, j, i)]
    {
      v := data[Offset3(dims, k, j, i)];
    }

    /** Rank-3 write of element (k, j, i): that cell becomes v, no other changes. */
    method Set3(k: nat, j: nat, i: nat, v: int)
      requires Valid() && |dims| == 3 && Offset3(dims, k, j, i) < data.Length
      modifies data
      ensures data[..] == old(data[..])[Offset3(dims, k, j, i) := v]
    {
      data[Offset3(dims, k, j, i)] := v;
    }

    /** Rank-4 read of element (l, k, j, i). */
    method Get4(l: nat, k: nat, j: nat, i: nat) returns (v: int)
      requires Valid() && |dims| == 4 && Offset4(dims, l, k, j, i) < data.Length
      ensures v == data[Offset4(dims, l, k, j, i)]
    {
      v := data[Offset4(dims, l, k, j, i)];
    }

    /** Rank-4 write of element (l, k, j, i): that cell becomes v, no other changes. */
    method Set4(l: nat, k: nat, j: nat, i: nat, v: int)
      requires Valid() && |dims| == 4 && Offset4(dims, l, k, j, i) < data.Length
      modifies data
      ensures data[..] == old(data[..])[Offset4(dims, l, k, j, i) := v]
    {
      data[Offset4(dims, l, k, j, i)] := v;
    }

    /**
     * A binary operator: a new tensor of the same shape, made as a copy of
     * `other` and then overwritten with `this op other` at every position.
     * Neither operand changes.
     */
    method Zip(op: Op, other: Tensor) returns (r: Tensor)
      requires Valid() && other.Valid() && other.dims == dims
      requires DefinedOn(op, other.data[..])
      ensures fresh(r) && fresh(r.data) && r.Valid() && r.dims == dims
      ensures r.data[..] == Combine(op, data[..], other.data[..])
    {
      r := new Tensor.FromArray(other.dims, other.data);
      var i := 0;
      while i < data.Length
        invariant 0 <= i <= data.Length
        invariant forall p :: 0 <= p < i ==> r.data[p] == Apply(op, data[p], other.data[p])
      {
        r.data[i] := Apply(op, data[i], other.data[i]);
        i := i + 1;
      }
    }

    /** `this + other`. */
    method Plus(other: Tensor) returns (r: Tensor)
      requires Valid() && other.Valid() && other.dims == dims
      ensures fresh(r) && fresh(r.data) && r.Valid() && r.dims == dims
      ensures forall p :: 0 <= p < r.data.Length ==> r.data[p] == data[p] + other.data[p]
      ensures r.data[..] == Combine(Add, data[..], other.data[..])
    {
      r := Zip(Add, other);
    }

    /** `this - other`. */
    method Minus(other: Tensor) returns (r: Tensor)
      requires Valid() && other.Valid() && other.dims == dims
      ensures fresh(r) && fresh(r.data) && r.Valid() && r.dims == dims
      ensures forall p :: 0 <= p < r.data.Length ==> r.data[p] == data[p] - other.data[p]
      ensures r.data[..] == Combine(Sub, data[..], other.data[..])
    {
      r := Zip(Sub, other);
    }

    /** `this * other`. */
    method Times(other: Tensor) returns (r: Tensor)
      requires Valid() && other.Valid() && other.dims == dims
      ensures fresh(r) && fresh(r.data) && r.Valid() && r.dims == dims
      ensures forall p :: 0 <= p < r.data.Length ==> r.data[p] == data[p] * other.data[p]
      ensures r.data[..] == Combine(Mul, data[..], other.data[..])
    {
      r := Zip(Mul, other);
    }

    /** `this / other`, each quotient truncated toward zero; no divisor may be zero. */
    method Quotient(other: Tensor) returns (r: Tensor)
      requires Valid() && other.Valid() && other.dims == dims
      requires forall p :: 0 <= p < other.data.Length ==> other.data[p] != 0
      ensures fresh(r) && fresh(r.data) && r.Valid() && r.dims == dims
      ensures DefinedOn(Div, other.data[..]) && r.data[..] == Combine(Div, data[..], other.data[..])
      ensures forall p :: 0 <= p < r.data.Length ==> r.data[p] == Scalar.TruncDiv(data[p], other.data[p])
    {
      r := Zip(Div, other);
    }

    /**
     * A compound operator: `this op= other`, in place. Each step reads and
     * writes position i only, so the result is the same when `other` shares
     * this tensor's buffer; otherwise `other` does not change.
     */
    method ZipInPlace(op: Op, other: Tensor)
      requires Valid() && other.Valid() && other.dims == dims
      requires DefinedOn(op, other.data[..])
      modifies data
      ensures data[..] == Combine(op, old(data[..]), old(other.data[..]))
      ensures other.data != data ==> other.data[..] == old(other.data[..])
    {
      var i := 0;
      while i < data.Length
        invariant 0 <= i <= data.Length
        invariant forall p :: 0 <= p < i ==> data[p] == Apply(op, old(data[p]), old(other.data[p]))
        invariant forall p :: i <= p < data.Length ==> data[p] == old(data[p])
        invariant forall p :: i <= p < data.Length ==> other.data[p] == old(other.data[p])
        invariant other.data != data ==> other.data[..] == old(other.data[..])
      {
        data[i] := Apply(op, data[i], other.data[i]);
        i := i + 1;
      }
    }

    /** `this += other`. */
    method AddAssign(other: Tensor)
      requires Valid() && other.Valid() && other.dims == dims
      modifies data
      ensures forall p :: 0 <= p < data.Length ==> data[p] == old(data[p]) + old(other.data[p])
      ensures other.data != data ==> other.data[..] == old(other.data[..])
    {
      ZipInPlace(Add, other);
    }

    /** `this -= other`. */
    method SubAssign(other: Tensor)
      requires Valid() && other.Valid() && other.dims == dims
      modifies data
      ensures forall p :: 0 <= p < data.Length ==> data[p] == old(data[p]) - old(other.data[p])
      ensures other.data != data ==> other.data[..] == old(other.data[..])
    {
      ZipInPlace(Sub, other);
    }

    /** `this *= other`. */
    method MulAssign(other: Tensor)
      requires Valid() && other.Valid() && other.dims == dims
      modifies data
      ensures forall p :: 0 <= p < data.Length ==> data[p] == old(data[p]) * old(other.data[p])
      ensures other.data != data ==> other.data[..] == old(other.data[..])
    {
      ZipInPlace(Mul, other);
    }

    /** `this /= other`, each quotient truncated toward zero; no divisor may be zero. */
    method DivAssign(other: Tensor)
      requires Valid() && other.Valid() && other.dims == dims
      requires forall p :: 0 <= p < other.data.Length ==> other.data[p] != 0
      modifies data
      ensures forall p :: 0 <= p < data.Length ==> data[p] == Scalar.TruncDiv(old(data[p]), old(other.data[p]))
      ensures other.data != data ==> other.data[..] == old(other.data[..])
    {
      ZipInPlace(Div, other);
    }

    /** Unary minus, which negates in place: every element multiplied by -1. */
    method Negate()
      requires Valid()
      modifies data
      ensures data[..] == Negated(old(data[..]))
    {
      var i := 0;
      while i < data.Length
        invariant 0 <= i <= data.Length
        invariant forall p :: 0 <= p < i ==> data[p] == old(data[p]) * -1
        invariant forall p :: i <= p < data.Length ==> data[p] == old(data[p])
      {
        data[i] := data[i] * -1;
        i := i + 1;
      }
    }

    /**
     * Assignment: every element of `other` copied into this tensor's own
     * buffer, which stays distinct from `other`'s.
     */
    method Assign(other: Tensor)
      requires Valid() && other.Valid() && other.dims == dims
      modifies data
      ensures data[..] == old(other.data[..])
    {
      var i := 0;
      while i < data.Length
        invariant 0 <= i <= data.Length
        invariant forall p :: 0 <= p < i ==> data[p] == old(other.data[p])
        invariant forall p :: i <= p < data.Length ==> other.data[p] == old(other.data[p])
      {
        data[i] := other.data[i];
        i := i + 1;
      }
    }
  }
}
