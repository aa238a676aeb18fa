/**
 * The shape of a tensor: its dimension list, the capacity it implies and the
 * flat offsets the four element accessors compute from a multi-index.
 *
 * The offset formulas are reproduced exactly as the accessors write them.
 * Rank 1 is the identity. The rank-2 to rank-4 formulas are not canonical
 * row-major addressing: ranks 2 to 4 use dims[0] as the stride of their first
 * index, and ranks 3 and 4 reuse dims[0] and dims[1].
 */
module Shape {

  /**
   * A shape this model admits: one to four dimensions, none of them empty.
   * The template itself accepts any dimension list; only the accessors stop
   * at four indices.
   */
  predicate ValidShape(dims: seq<nat>)
  {
    1 <= |dims| <= 4 && forall k :: 0 <= k < |dims| ==> dims[k] > 0
  }

  /**
   * The number of scalars a tensor of this shape holds: the left fold
   * ((d0 * d1) * d2) * d3 of the dimensions. When no dimension is zero the
   * capacity is positive and no single dimension exceeds it.
   */
  function Capacity(dims: seq<nat>): (c: nat)
    ensures (forall k :: 0 <= k < |dims| ==> dims[k] > 0) ==>
              c > 0 && forall k :: 0 <= k < |dims| ==> dims[k] <= c
    decreases |dims|
  {
    if dims == [] then 1
    else
      var front := dims[..|dims| - 1];
      var last := dims[|dims| - 1];
      assert forall k :: 0 <= k < |front| ==> front[k] == dims[k];
      var c := Capacity(front) * last;
      assert last > 0 && Capacity(front) > 0 ==> c >= Capacity(front) && c >= last by {
        if last > 0 && Capacity(front) > 0 {
          MulMonotone(Capacity(front), last);
          MulMonotone(last, Capacity(front));
        }
      }
      c
  }

  /** A product of two positive naturals is at least either factor. */
  lemma MulMonotone(a: nat, b: nat)
    requires a > 0 && b > 0
    ensures a * b >= a
  {
    assert a * b == a * (b - 1) + a;
  }

  /** Rank 1: the index is the offset. */
  function Offset1(i: nat): nat
  {
    i
  }

  /** Rank 2: (j, i) addresses cell j * dims[0] + i. */
  function Offset2(dims: seq<nat>, j: nat, i: nat): nat
    requires |dims| == 2
  {
    j * dims[0] + i
  }

  /** Rank 3: (k, j, i) addresses cell k * dims[0] + j * dims[1] + i. */
  function Offset3(dims: seq<nat>, k: nat, j: nat, i: nat): nat
    requires |dims| == 3
  {
    k * dims[0] + j * dims[1] + i
  }

  /** Rank 4: (l, k, j, i) addresses cell l * dims[0] + k * dims[1] + j * dims[2] + i. */
  function Offset4(dims: seq<nat>, l: nat, k: nat, j: nat, i: nat): nat
    requires |dims| == 4
  {
    l * dims[0] + k * dims[1] + j * dims[2] + i
  }

  /** The capacity of a rank-1 shape is its one dimension. */
  lemma Capacity1(dims: seq<nat>)
    requires |dims| == 1
    ensures Capacity(dims) == dims[0]
  {
    assert dims[..0] == [];
  }

  /** The capacity of a rank-2 shape is the product of its two dimensions. */
  lemma Capacity2(dims: seq<nat>)
    requires |dims| == 2
    ensures Capacity(dims) == dims[0] * dims[1]
  {
    assert dims[..1][..0] == [];
    assert Capacity(dims[..1]) == dims[0];
  }

  /**
   * Read with i below dims[0] and j below dims[1], the rank-2 formula stays
   * inside the buffer.
   */
  lemma Offset2InRange(dims: seq<nat>, j: nat, i: nat)
    requires |dims| == 2 && i < dims[0] && j < dims[1]
    ensures Offset2(dims, j, i) < Capacity(dims)
  {
    Capacity2(dims);
    assert (j + 1) * dims[0] <= dims[1] * dims[0] by {
      MulLeft(j + 1, dims[1], dims[0]);
    }
  }

  /** Multiplying both sides of a <= b by the same natural keeps the order. */
  lemma MulLeft(a: nat, b: nat, m: nat)
    requires a <= b
    ensures a * m <= b * m
  {
    assert b * m == a * m + (b - a) * m;
  }

  /**
   * Read with i below dims[0], the rank-2 formula never sends two index
   * pairs to the same cell.
   */
  lemma Offset2Injective(dims: seq<nat>, j: nat, i: nat, j': nat, i': nat)
    requires |dims| == 2 && i < dims[0] && i' < dims[0]
    requires Offset2(dims, j, i) == Offset2(dims, j', i')
    ensures j == j' && i == i'
  {
    var d := dims[0];
    if j < j' {
      MulLeft(j + 1, j', d);
      assert false;
    } else if j' < j {
      MulLeft(j' + 1, j, d);
      assert false;
    }
  }

  /**
   * Every cell of a rank-2 buffer is reached: cell p is (p / dims[0],
   * p % dims[0]), and that pair is in range. With Offset2Injective and
   * Offset2InRange this makes the rank-2 accessor a bijection between
   * index pairs (j < dims[1], i < dims[0]) and flat positions.
   */
  lemma Offset2Decompose(dims: seq<nat>, p: nat)
    requires ValidShape(dims) && |dims| == 2 && p < Capacity(dims)
    ensures p / dims[0] < dims[1] && p % dims[0] < dims[0]
    ensures Offset2(dims, p / dims[0], p % dims[0]) == p
  {
    var d := dims[0];
    Capacity2(dims);
    var j, i := p / d, p % d;
    assert p == j * d + i;
    if j >= dims[1] {
      MulLeft(dims[1], j, d);
      assert false;
    }
  }

  /**
   * Read the other way round, with the first index below dims[0] and the
   * second below dims[1], the rank-2 formula leaves the buffer whenever
   * dims[0] > dims[1]: the last such pair lands at or beyond the capacity.
   */
  lemma Offset2EscapesInDimOrder(dims: seq<nat>)
    requires ValidShape(dims) && |dims| == 2 && dims[0] > dims[1]
    ensures dims[0] - 1 < dims[0] && dims[1] - 1 < dims[1]
    ensures Offset2(dims, dims[0] - 1, dims[1] - 1) >= Capacity(dims)
  {
    var a: int, b: int := dims[0], dims[1];
    Capacity2(dims);
    assert (a - 1) * a == a * a - a;
    assert (a - 1) * (a - b) == a * a - a * b - a + b;
    MulMonotone(a - 1, a - b);
    assert Offset2(dims, a - 1, b - 1) == (a - 1) * a + b - 1;
  }

  /**
   * Rank 3 on shape (2, 2, 2): two in-range index triples share a cell, and
   * no in-range triple reaches the last two of the eight cells.
   */
  lemma Offset3SharesAndMisses()
    ensures Capacity([2, 2, 2]) == 8
    ensures Offset3([2, 2, 2], 1, 0, 0) == Offset3([2, 2, 2], 0, 1, 0)
    ensures forall k: nat, j: nat, i: nat :: k < 2 && j < 2 && i < 2 ==> Offset3([2, 2, 2], k, j, i) < 6
  {
    assert [2, 2, 2][..2] == [2, 2] && [2, 2][..1] == [2] && [2][..0] == [];
  }

  /**
   * Rank 4 on shape (2, 2, 2, 2): in-range index quadruples reach only the
   * first half of the sixteen cells.
   */
  lemma Offset4ReachesHalf()
    ensures Capacity([2, 2, 2, 2]) == 16
    ensures forall l: nat, k: nat, j: nat, i: nat ::
              l < 2 && k < 2 && j < 2 && i < 2 ==> Offset4([2, 2, 2, 2], l, k, j, i) < 8
  {
    assert [2, 2, 2, 2][..3] == [2, 2, 2] && [2, 2, 2][..2] == [2, 2];
    assert [2, 2][..1] == [2] && [2][..0] == [];
  }
}
