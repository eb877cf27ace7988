/** NDArray<T> with T = int: a flat row-major element vector `data`
    (m_data) and its dimension list `shape` (m_shape). The std::invalid_argument
    throws become error kinds returned to the caller. */
module NDArrays {
  import opened Layout
  import opened Elementwise

  /** The four failures the class reports, one per kind of throw. */
  datatype Error = RankMismatch | IndexOutOfRange | ReshapeSizeMismatch | ShapeMismatch

  datatype Result<T> = Ok(value: T) | Err(error: Error)

  /** The result of an operation that only changes state. */
  datatype Outcome = Pass | Fail(error: Error)

  /** The state every public operation keeps. The element count is the
      product of the shape, except in the Empty state that the default
      constructor and clear() leave: no elements and no dimensions, although
      the product of no dimensions is 1. */
  predicate WellFormed(values: seq<int>, shape: seq<nat>)
  {
    |values| == Product(shape) || (values == [] && shape == [])
  }

  /** The rank check, bounds checks and offset arithmetic of operator(),
      as written: nothing here compares the offset with the element count. */
  function CheckedOffset(shape: seq<nat>, indices: seq<nat>): (r: Result<nat>)
    ensures r.Ok? <==> InBounds(shape, indices)
    ensures r.Err? ==> r.error == (if |indices| != |shape| then RankMismatch else IndexOutOfRange)
    ensures r.Ok? ==> r.value < Product(shape) && Unravel(shape, r.value) == indices
  {
    if |indices| != |shape| then Err(RankMismatch)
    else if !InBounds(shape, indices) then Err(IndexOutOfRange)
    else
      UnravelOffset(shape, indices);
      Ok(RowMajorOffset(shape, indices))
  }

  /** Finding: indexing an Empty array with no indices passes both checks and
      yields offset 0, which is past the end of its (empty) element vector. */
  lemma EmptyArrayOffsetPastEnd()
    ensures var empty: seq<int> := [];
      WellFormed(empty, []) && CheckedOffset([], []) == Ok(0) && 0 >= |empty|
  {
  }

  /** Finding: the array operators compare shapes only. An Empty array and a
      rank-0 array (built from the shape {}) are both well formed with the
      same shape, yet the Empty one has fewer elements, so std::transform
      would read past the end of it. */
  lemma ShapeCheckAdmitsShortOperand(v: int)
    ensures var empty: seq<int> := [];
      WellFormed([v], []) && WellFormed(empty, []) && |empty| < |[v]|
  {
  }

  /** Finding: with the scalar taken by reference from the array itself,
      `a /= a({0})` on {2, 4, 6} gives {1, 4, 6}; dividing by a copy of the
      element gives {1, 2, 3}. */
  lemma AliasedScalarDivision()
    ensures AliasedMapped([2, 4, 6], Div, 0) == [1, 4, 6]
    ensures ScalarMapped([2, 4, 6], Div, 2) == [1, 2, 3]
  {
    assert TruncDiv(2, 2) == 1 && TruncDiv(4, 1) == 4 && TruncDiv(6, 1) == 6;
    assert TruncDiv(4, 2) == 2 && TruncDiv(6, 2) == 3;
  }

  /** The corrected operand check of the array operators: equal shapes AND
      equal element counts. */
  predicate Conformable(values: seq<int>, shape: seq<nat>, operands: seq<int>, otherShape: seq<nat>)
  {
    shape == otherShape && |values| == |operands|
  }

  /** On well-formed arrays the corrected check differs from the source's
      shape comparison only on the Empty / rank-0 pair. */
  lemma ConformableVersusShapeCheck(values: seq<int>, shape: seq<nat>, operands: seq<int>, otherShape: seq<nat>)
    requires WellFormed(values, shape) && WellFormed(operands, otherShape)
    ensures Conformable(values, shape, operands, otherShape) ==> shape == otherShape
    ensures shape == otherShape && !Conformable(values, shape, operands, otherShape) ==>
      shape == [] && |values| + |operands| == 1
  {
  }

  class NDArray {
    var data: seq<int>
    var shape: seq<nat>

    ghost predicate Valid()
      reads this
    {
      WellFormed(data, shape)
    }

    /** NDArray(): the Empty state. */
    constructor ()
      ensures data == [] && shape == [] && Valid()
    {
      data := [];
      shape := [];
    }

    /** NDArray(shape, value = T()): product(shape) copies of value, then the
        shape committed through reshape, which cannot fail here. The shape is
        kept exactly as given, size-1 dimensions included. */
    constructor Filled(dims: seq<nat>, value: int := 0)
      ensures |data| == Product(dims) && forall i :: 0 <= i < |data| ==> data[i] == value
      ensures shape == dims && Valid()
    {
      data := seq(Product(dims), _ => value);
      shape := [];
      new;
      var r := Reshape(dims);
    }

    /** NDArray(data): the elements as given, as one dimension of their
        length. An empty input gives shape [0], not the Empty state. */
    constructor FromFlat(values: seq<int>)
      ensures data == values && shape == [|values|] && Valid()
    {
      data := values;
      shape := [|values|];
      new;
      assert Product(shape) == |values| by { assert shape[1..] == []; }
    }

    /** The offset loop shared by both operator() overloads. */
    method Locate(indices: seq<nat>) returns (r: Result<nat>)
      ensures r == CheckedOffset(shape, indices)
    {
      if |indices| != |shape| {
        return Err(RankMismatch);
      }
      var index: nat := 0;
      var i := 0;
      while i < |indices|
        invariant 0 <= i <= |indices|
        invariant forall d :: 0 <= d < i ==> indices[d] < shape[d]
        invariant index == RowMajorOffset(shape[..i], indices[..i])
      {
        if indices[i] >= shape[i] {
          return Err(IndexOutOfRange);
        }
        RowMajorSnoc(shape[..i], indices[..i], shape[i], indices[i]);
        assert shape[..i + 1] == shape[..i] + [shape[i]];
        assert indices[..i + 1] == indices[..i] + [indices[i]];
        index := index * shape[i] + indices[i];
        i := i + 1;
      }
      assert shape[..i] == shape && indices[..i] == indices;
      return Ok(index);
    }

    /** Read through the const operator(). The offset is also checked against
        the element count, which the source omits (see EmptyArrayOffsetPastEnd):
        indexing the Empty array fails with IndexOutOfRange. */
    method Get(indices: seq<nat>) returns (r: Result<int>)
      requires Valid()
      ensures r.Ok? <==> InBounds(shape, indices) && data != []
      ensures r.Err? ==> r.error == (if |indices| != |shape| then RankMismatch else IndexOutOfRange)
      ensures r.Ok? ==> RowMajorOffset(shape, indices) < |data| && r.value == data[RowMajorOffset(shape, indices)]
    {
      var loc := Locate(indices);
      match loc
      case Err(e) =>
        r := Err(e);
      case Ok(k) =>
        if k < |data| {
          r := Ok(data[k]);
        } else {
          r := Err(IndexOutOfRange);
        }
    }

    /** Write through the mutable operator(): only the addressed slot changes,
        and nothing changes on failure. Checked like Get. */
    method Set(indices: seq<nat>, value: int) returns (r: Outcome)
      requires Valid()
      modifies this
      ensures Valid() && shape == old(shape)
      ensures r.Pass? <==> InBounds(shape, indices) && old(data) != []
      ensures r.Fail? ==> data == old(data)
      ensures r.Fail? ==> r.error == (if |indices| != |shape| then RankMismatch else IndexOutOfRange)
      ensures r.Pass? ==> RowMajorOffset(shape, indices) < |data|
      ensures r.Pass? ==> data == old(data)[RowMajorOffset(shape, indices) := value]
    {
      var loc := Locate(indices);
      match loc
      case Err(e) =>
        r := Fail(e);
      case Ok(k) =>
        if k < |data| {
          data := data[k := value];
          r := Pass;
        } else {
          r := Fail(IndexOutOfRange);
        }
    }

    /** operator op=(const T&): every element combined with the scalar, in
        index order. Dividing the elements requires a nonzero scalar (C++
        leaves division by zero undefined); with no elements nothing is
        divided. */
    method ApplyScalar(op: Op, value: int)
      requires op.Div? && data != [] ==> value != 0
      modifies this
      ensures data == ScalarMapped(old(data), op, value)
      ensures shape == old(shape)
      ensures old(Valid()) ==> Valid()
    {
      var i := 0;
      while i < |data|
        invariant 0 <= i <= |data| == |old(data)|
        invariant shape == old(shape)
        invariant forall j :: 0 <= j < i ==> data[j] == Apply(op, old(data)[j], value)
        invariant forall j :: i <= j < |data| ==> data[j] == old(data)[j]
      {
        data := data[i := Apply(op, data[i], value)];
        i := i + 1;
      }
    }

    /** operator op=(const T&) called with a reference to this array's own
        element at offset k (as `a /= a(indices)` passes it), as written:
        the loop re-reads that element after it has been updated. */
    method ApplyAliasedScalar(op: Op, k: nat)
      requires k < |data|
      requires op.Div? ==> data[k] != 0
      modifies this
      ensures data == AliasedMapped(old(data), op, k)
      ensures shape == old(shape)
      ensures old(Valid()) ==> Valid()
    {
      ghost var expected := AliasedMapped(data, op, k);
      var i := 0;
      while i < |data|
        invariant 0 <= i <= |data| == |old(data)|
        invariant shape == old(shape)
        invariant forall j :: 0 <= j < i ==> data[j] == expected[j]
        invariant forall j :: i <= j < |data| ==> data[j] == old(data)[j]
      {
        data := data[i := Apply(op, data[i], data[k])];
        i := i + 1;
      }
    }

    /** operator op=(const NDArray&): fails with ShapeMismatch, changing
        nothing, unless the operands are Conformable; otherwise every element
        is combined with the other operand's element at the same position.
        The other operand may be this very array. Division requires the
        divisors it uses to be nonzero. */
    method ApplyArray(op: Op, other: NDArray) returns (r: Outcome)
      requires Valid() && other.Valid()
      requires op.Div? && Conformable(data, shape, other.data, other.shape) ==> NonZero(other.data)
      modifies this
      ensures r == if Conformable(old(data), old(shape), old(other.data), old(other.shape)) then Pass else Fail(ShapeMismatch)
      ensures shape == old(shape) && Valid()
      ensures r.Fail? ==> data == old(data)
      ensures r.Pass? ==> |old(data)| == |old(other.data)| && data == Zipped(old(data), old(other.data), op)
    {
      if shape != other.shape || |data| != |other.data| {
        return Fail(ShapeMismatch);
      }
      var i := 0;
      while i < |data|
        invariant 0 <= i <= |data| == |old(data)|
        invariant shape == old(shape)
        invariant other != this ==> other.data == old(other.data)
        invariant forall j :: 0 <= j < i ==> data[j] == Apply(op, old(data)[j], old(other.data)[j])
        invariant forall j :: i <= j < |data| ==> data[j] == old(data)[j]
      {
        data := data[i := Apply(op, data[i], other.data[i])];
        i := i + 1;
      }
      return Pass;
    }

    /** reshape(shape): accepted exactly when the new shape describes as many
        elements as the array holds; the shape is then committed verbatim
        (the source's squeeze has no effect) and the elements keep their
        order. On failure nothing changes. */
    method Reshape(newShape: seq<nat>) returns (r: Outcome)
      modifies this
      ensures r == if Product(newShape) == |old(data)| then Pass else Fail(ReshapeSizeMismatch)
      ensures data == old(data)
      ensures shape == if r.Pass? then newShape else old(shape)
      ensures r.Pass? || old(Valid()) ==> Valid()
    {
      if Product(newShape) != |data| {
        return Fail(ReshapeSizeMismatch);
      }
      shape := [];
      var i := 0;
      while i < |newShape|
        invariant 0 <= i <= |newShape|
        invariant shape == newShape[..i]
        invariant data == old(data)
      {
        shape := shape + [newShape[i]];
        i := i + 1;
      }
      assert newShape[..i] == newShape;
      return Pass;
    }

    /** clear(): back to the Empty state. */
    method Clear()
      modifies this
      ensures data == [] && shape == [] && Valid()
      ensures Dim() == 0 && Size() == 0
    {
      data := [];
      shape := [];
    }

    /** dim(): the number of dimensions. A rank-0 array holds at most one
        element; with at least one dimension, the shape's product is the
        element count. */
    function Dim(): (n: nat)
      reads this
      ensures Valid() && n == 0 ==> Size() <= 1
      ensures Valid() && n > 0 ==> Size() == Product(Shape())
    {
      |shape|
    }

    /** size(): the number of elements, the product of the shape unless the
        array is Empty. */
    function Size(): (n: nat)
      reads this
      ensures Valid() && shape != [] ==> n == Product(shape)
      ensures Valid() && shape == [] ==> n <= 1
    {
      |data|
    }

    /** shape(): a copy of the dimension list. */
    function Shape(): (s: seq<nat>)
      reads this
      ensures Valid() && s != [] ==> Product(s) == |data|
    {
      shape
    }
  }
}
