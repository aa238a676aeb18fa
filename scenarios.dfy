/**
 * Client code that uses the tensor only through its contracts, for the
 * behaviours a user of the type relies on: reading back a constructed
 * tensor, an indexing example, copy semantics of assignment, compound
 * operators agreeing with their binary counterparts, a default-constructed
 * tensor being neutral for `+`, binary minus agreeing with unary minus
 * followed by `+`, `*` followed by `/` restoring the left operand, and unary
 * minus undoing itself.
 */
module Scenarios {
  import opened Shape
  import opened Elementwise
  import opened Tense

  /**
   * A rank-2 tensor built from a flat array and read back with the
   * accessor, j over dims[1] and i over dims[0], yields the array again in
   * flat order.
   */
  method ReadBackRank2(dims: seq<nat>, input: array<int>) returns (s: seq<int>)
    requires ValidShape(dims) && |dims| == 2 && input.Length == Capacity(dims)
    ensures s == input[..]
  {
    var t := new Tensor.FromArray(dims, input);
    Capacity2(dims);
    var rows, cols := dims[1], dims[0];
    s := [];
    var j, base := 0, 0;
    while j < rows
      invariant 0 <= j <= rows && base == j * cols
      invariant |s| == base <= input.Length
      invariant s == input[..base]
      invariant t.data[..] == input[..]
    {
      MulLeft(j + 1, rows, cols);
      assert base + cols == (j + 1) * cols <= input.Length;
      var i := 0;
      while i < cols
        invariant 0 <= i <= cols
        invariant |s| == base + i
        invariant s == input[..base + i]
        invariant t.data[..] == input[..]
      {
        Offset2InRange(dims, j, i);
        var v := t.Get2(j, i);
        assert v == input[base + i];
        s := s + [v];
        i := i + 1;
      }
      j, base := j + 1, base + cols;
    }
    assert s == input[..input.Length];
  }

  /** Shape (3, 4) filled with 0 .. 11: element (1, 2) sits at 1 * 3 + 2 and holds 5. */
  method IndexingExample() returns (v: int)
    ensures v == 5
  {
    var input := new int[12](p => p);
    assert Capacity([3, 4]) == 12 by { Capacity2([3, 4]); }
    var t := new Tensor.FromArray([3, 4], input);
    v := t.Get2(1, 2);
  }

  /**
   * After `a = b`, writing into b leaves a as it was: a holds its own copy.
   * Returns a's element (0, 0) after b's was overwritten.
   */
  method AssignmentCopies(x: int, y: int) returns (v: int)
    ensures v == x
  {
    var a := new Tensor.Zeros([2, 2]);
    var b := new Tensor.Filled([2, 2], x);
    Capacity2([2, 2]);
    a.Assign(b);
    b.Set2(0, 0, y);
    v := a.Get2(0, 0);
  }

  /** `a += b` leaves in a exactly what `a + b` returned beforehand. */
  method CompoundMatchesBinary(a: Tensor, b: Tensor) returns (sum: Tensor)
    requires a.Valid() && b.Valid() && b.dims == a.dims
    modifies a.data
    ensures fresh(sum) && a.data[..] == sum.data[..]
  {
    sum := a.Plus(b);
    a.AddAssign(b);
  }

  /** Adding a default-constructed tensor of the same shape returns the contents unchanged. */
  method PlusZeros(a: Tensor) returns (sum: Tensor)
    requires a.Valid()
    ensures fresh(sum) && sum.dims == a.dims && sum.data[..] == a.data[..]
  {
    var zeros := new Tensor.Zeros(a.dims);
    sum := a.Plus(zeros);
  }

  /**
   * `a - b` has the contents of `a + c`, where c is a copy of b negated with
   * unary minus.
   */
  method MinusIsPlusNegated(a: Tensor, b: Tensor) returns (diff: Tensor, sum: Tensor)
    requires a.Valid() && b.Valid() && b.dims == a.dims
    ensures fresh(diff) && fresh(sum) && diff.dims == sum.dims == a.dims
    ensures diff.data[..] == sum.data[..]
  {
    var c := new Tensor.FromArray(b.dims, b.data);
    c.Negate();
    sum := a.Plus(c);
    diff := a.Minus(b);
  }

  /** `(a * b) / b` gives back the contents of a when no element of b is zero. */
  method TimesThenQuotient(a: Tensor, b: Tensor) returns (q: Tensor)
    requires a.Valid() && b.Valid() && b.dims == a.dims
    requires forall p :: 0 <= p < b.data.Length ==> b.data[p] != 0
    ensures fresh(q) && q.dims == a.dims && q.data[..] == a.data[..]
  {
    var prod := a.Times(b);
    q := prod.Quotient(b);
    MulThenDiv(a.data[..], b.data[..]);
  }

  /** Unary minus applied twice restores every element. */
  method NegateTwice(t: Tensor)
    requires t.Valid()
    modifies t.data
    ensures t.data[..] == old(t.data[..])
  {
    t.Negate();
    t.Negate();
    NegatedTwice(old(t.data[..]));
  }
}
