/** Client code of NDArray: the demonstration in sources/main.cpp and the
    guarantees a caller can derive from the class's contracts alone. */
module Scenario {
  import opened Layout
  import opened Elementwise
  import opened NDArrays

  /** main(): a {2,3,4} array of 1s, reshaped to {2,12}, plus 1, minus a
      {2,12} array of 1s. */
  method DemoScenario() returns (last: Result<nat>, finalShape: seq<nat>, finalData: seq<int>)
    ensures last == Ok(23)
    ensures finalShape == [2, 12]
    ensures finalData == seq(24, _ => 1)
  {
    var a := new NDArray.Filled([2, 3, 4], 1);
    DemoOffset();
    last := a.Locate([1, 2, 3]);
    var reshaped := a.Reshape([2, 12]);
    assert reshaped.Pass? by { DemoProducts(); }
    a.ApplyScalar(Add, 1);
    assert a.data == seq(24, _ => 2);
    var ones := new NDArray.Filled([2, 12], 1);
    var diff := a.ApplyArray(Sub, ones);
    assert diff.Pass? by { assert Conformable(a.data, a.shape, ones.data, ones.shape); }
    finalShape, finalData := a.shape, a.data;
  }

  lemma DemoProducts()
    ensures Product([2, 3, 4]) == 24 && Product([2, 12]) == 24
  {
    assert [2, 3, 4][1..] == [3, 4] && [3, 4][1..] == [4] && [4][1..] == [];
    assert [2, 12][1..] == [12] && [12][1..] == [];
  }

  /** The last element of the {2,3,4} array sits at offset
      1*12 + 2*4 + 3 = 23. */
  lemma DemoOffset()
    ensures CheckedOffset([2, 3, 4], [1, 2, 3]) == Ok(23)
  {
    DemoProducts();
    assert InBounds([2, 3, 4], [1, 2, 3]);
    assert [1, 2, 3][1..] == [2, 3] && [2, 3][1..] == [3] && [3][1..] == [];
    assert [2, 3, 4][1..] == [3, 4] && [3, 4][1..] == [4] && [4][1..] == [];
    assert RowMajorOffset([4], [3]) == 3;
    assert RowMajorOffset([3, 4], [2, 3]) == 11;
  }

  /** The failures listed for a {2,3,4} array and for mismatched operands. */
  method ErrorScenario() returns (outOfRange: Result<int>, wrongRank: Result<int>, mismatch: Outcome)
    ensures outOfRange == Err(IndexOutOfRange)
    ensures wrongRank == Err(RankMismatch)
    ensures mismatch == Fail(ShapeMismatch)
  {
    var a := new NDArray.Filled([2, 3, 4], 1);
    outOfRange := a.Get([2, 0, 0]);
    wrongRank := a.Get([0, 0]);
    var b := new NDArray.Filled([2, 3]);
    var c := new NDArray.Filled([3, 2]);
    mismatch := b.ApplyArray(Add, c);
  }

  /** Reshaping away and back restores the shape and keeps the elements in
      place, whenever the element count is the product of the shape (that is,
      unless the array is Empty: its shape {} describes one element). */
  method ReshapeRoundTrip(a: NDArray, s: seq<nat>) returns (there: Outcome, back: Outcome)
    requires a.Valid() && Product(s) == |a.data| && Product(a.shape) == |a.data|
    modifies a
    ensures there == Pass && back == Pass
    ensures a.shape == old(a.shape) && a.data == old(a.data)
  {
    var original := a.shape;
    there := a.Reshape(s);
    back := a.Reshape(original);
  }

  /** The Empty array cannot be brought back to its own shape: it reshapes
      to {0} but not to {}. */
  method EmptyReshapeIsOneWay() returns (there: Outcome, back: Outcome)
    ensures there == Pass && back == Fail(ReshapeSizeMismatch)
  {
    var a := new NDArray();
    there := a.Reshape([0]);
    back := a.Reshape([]);
  }

  /** `a += k; a -= k;` leaves a's elements and shape as they were. */
  method ScalarRoundTrip(a: NDArray, k: int)
    requires a.Valid()
    modifies a
    ensures a.data == old(a.data) && a.shape == old(a.shape) && a.Valid()
  {
    a.ApplyScalar(Add, k);
    a.ApplyScalar(Sub, k);
    ScalarAddThenSub(old(a.data), k);
  }

  /** Writing through operator() then reading the same indices gives the
      written value back. */
  method SetThenGet(a: NDArray, indices: seq<nat>, value: int) returns (w: Outcome, r: Result<int>)
    requires a.Valid()
    modifies a
    ensures w.Pass? ==> r == Ok(value)
    ensures w.Fail? ==> r.Err? && r.error == w.error
  {
    w := a.Set(indices, value);
    r := a.Get(indices);
  }

  /** The squeeze before reshape has no effect: a {2,1,12} array keeps its
      size-1 dimension, where the intended squeeze would give {2,12}. */
  method SqueezeIsInert() returns (kept: seq<nat>)
    ensures kept == [2, 1, 12]
    ensures Squeezed(kept) == [2, 12] && Product(Squeezed(kept)) == Product(kept)
  {
    var a := new NDArray.Filled([2, 1, 12]);
    kept := a.Shape();
    SqueezedProduct(kept);
  }
}
