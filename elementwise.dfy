/**
 * The element-wise arithmetic the tensor operators perform, stated on the
 * flat contents of the buffers: the four binary operations apply one scalar
 * operation at every flat position, unary negation multiplies every element
 * by -1.
 */
module Elementwise {
  import opened Scalar

  /** The four element-wise operator families: +, -, * and /. */
  datatype Op = Add | Sub | Mul | Div

  /** Only division restricts its right operand: the divisor must be non-zero. */
  predicate Defined(op: Op, y: int)
  {
    op == Div ==> y != 0
  }

  /** The scalar operation at one position, with C++ integer division for Div. */
  function Apply(op: Op, x: int, y: int): int
    requires Defined(op, y)
  {
    match op
    case Add => x + y
    case Sub => x - y
    case Mul => x * y
    case Div => TruncDiv(x, y)
  }

  /** The operation is defined at every position of the right operand. */
  predicate DefinedOn(op: Op, b: seq<int>)
  {
    forall k :: 0 <= k < |b| ==> Defined(op, b[k])
  }

  /** The contents of `a op b`: the same length, the operation applied position by position. */
  function Combine(op: Op, a: seq<int>, b: seq<int>): (r: seq<int>)
    requires |a| == |b| && DefinedOn(op, b)
    ensures |r| == |a|
    ensures forall k :: 0 <= k < |r| ==> r[k] == Apply(op, a[k], b[k])
  {
    seq(|a|, k requires 0 <= k < |a| => Apply(op, a[k], b[k]))
  }

  /** The contents of a negated tensor: every element multiplied by -1. */
  function Negated(a: seq<int>): (r: seq<int>)
    ensures |r| == |a|
    ensures forall k :: 0 <= k < |r| ==> r[k] == a[k] * -1
  {
    seq(|a|, k requires 0 <= k < |a| => a[k] * -1)
  }

  /** Negating twice restores every element. */
  lemma NegatedTwice(a: seq<int>)
    ensures Negated(Negated(a)) == a
  {
  }

  /**
   * Dividing a product by the factor it was multiplied with gives the left
   * operand back: truncation loses nothing on an exact quotient.
   */
  lemma MulThenDiv(a: seq<int>, b: seq<int>)
    requires |a| == |b| && DefinedOn(Div, b)
    ensures Combine(Div, Combine(Mul, a, b), b) == a
  {
    var p := Combine(Mul, a, b);
    forall k | 0 <= k < |a|
      ensures Combine(Div, p, b)[k] == a[k]
    {
      TruncDivOfMultiple(a[k], b[k]);
    }
  }

  /**
   * Dividing the negation is negating the quotient, position by position:
   * -(a) / b == -(a / b), which floor division would not give.
   */
  lemma NegatedThenDiv(a: seq<int>, b: seq<int>)
    requires |a| == |b| && DefinedOn(Div, b)
    ensures Combine(Div, Negated(a), b) == Negated(Combine(Div, a, b))
  {
    forall k | 0 <= k < |a|
      ensures Combine(Div, Negated(a), b)[k] == Negated(Combine(Div, a, b))[k]
    {
      assert a[k] * -1 == -a[k];
      TruncDivNegate(a[k], b[k]);
    }
  }
}
