/** Shapes and the row-major index arithmetic of NDArray<T>.

    A shape is the list of dimension sizes (std::vector<std::size_t> in the
    source); the elements live in one flat vector, last dimension fastest. */
module Layout {

  /** The element count a shape describes: std::accumulate over the shape
      with the initial value 1, so the empty shape describes one element. */
  function Product(shape: seq<nat>): (p: nat)
    ensures p > 0 <==> forall d :: 0 <= d < |shape| ==> shape[d] > 0
  {
    if shape == [] then 1 else shape[0] * Product(shape[1..])
  }

  lemma {:induction false} ProductConcat(a: seq<nat>, b: seq<nat>)
    ensures Product(a + b) == Product(a) * Product(b)
  {
    if a == [] {
      assert a + b == b;
    } else {
      assert (a + b)[1..] == a[1..] + b;
      ProductConcat(a[1..], b);
      calc {
        Product(a + b);
        a[0] * Product(a[1..] + b);
        a[0] * (Product(a[1..]) * Product(b));
        (a[0] * Product(a[1..])) * Product(b);
        Product(a) * Product(b);
      }
    }
  }

  /** Every index is below the size of its dimension and there is one index
      per dimension: the two checks of operator(). */
  predicate InBounds(shape: seq<nat>, indices: seq<nat>)
  {
    |indices| == |shape| && forall d :: 0 <= d < |shape| ==> indices[d] < shape[d]
  }

  /** The row-major offset: the sum over d of indices[d] times the product of
      the dimension sizes to the right of d. */
  function RowMajorOffset(shape: seq<nat>, indices: seq<nat>): nat
    requires |indices| == |shape|
  {
    if shape == [] then 0
    else indices[0] * Product(shape[1..]) + RowMajorOffset(shape[1..], indices[1..])
  }

  /** The incremental form computed by operator(): appending a dimension of
      size n and an index k maps an offset o to o * n + k. */
  lemma {:induction false} RowMajorSnoc(shape: seq<nat>, indices: seq<nat>, n: nat, k: nat)
    requires |indices| == |shape|
    ensures RowMajorOffset(shape + [n], indices + [k]) == RowMajorOffset(shape, indices) * n + k
  {
    if shape == [] {
      assert shape + [n] == [n] && indices + [k] == [k];
      assert Product([n][1..]) == 1;
    } else {
      var i0, w, rest := indices[0], Product(shape[1..]), RowMajorOffset(shape[1..], indices[1..]);
      assert (shape + [n])[1..] == shape[1..] + [n];
      assert (indices + [k])[1..] == indices[1..] + [k];
      RowMajorSnoc(shape[1..], indices[1..], n, k);
      ProductConcat(shape[1..], [n]);
      assert Product([n]) == n by { assert [n][1..] == []; }
      calc {
        RowMajorOffset(shape + [n], indices + [k]);
        i0 * Product(shape[1..] + [n]) + RowMajorOffset(shape[1..] + [n], indices[1..] + [k]);
        i0 * (w * n) + (rest * n + k);
        { Regroup(i0, w, rest, n, k); }
        (i0 * w + rest) * n + k;
        RowMajorOffset(shape, indices) * n + k;
      }
    }
  }

  lemma Regroup(i0: nat, w: nat, rest: nat, n: nat, k: nat)
    ensures i0 * (w * n) + (rest * n + k) == (i0 * w + rest) * n + k
  {
  }

  lemma MulLeft(a: nat, b: nat, w: nat)
    requires a <= b
    ensures a * w <= b * w
  {
  }

  /** Division of an offset below s0 * w by w, for the first dimension of size s0. */
  lemma DivBelow(offset: nat, s0: nat, w: nat)
    requires offset < s0 * w
    ensures w > 0 && offset / w < s0
    ensures offset == (offset / w) * w + offset % w && offset % w < w
  {
  }

  /** An in-bounds index tuple addresses an element inside product(shape). */
  lemma {:induction false} OffsetBelowProduct(shape: seq<nat>, indices: seq<nat>)
    requires InBounds(shape, indices)
    ensures RowMajorOffset(shape, indices) < Product(shape)
  {
    if shape != [] {
      var w := Product(shape[1..]);
      assert InBounds(shape[1..], indices[1..]) by {
        forall d | 0 <= d < |shape| - 1
          ensures indices[1..][d] < shape[1..][d]
        {
          assert indices[1..][d] == indices[d + 1] && shape[1..][d] == shape[d + 1];
        }
      }
      OffsetBelowProduct(shape[1..], indices[1..]);
      MulLeft(indices[0] + 1, shape[0], w);
      assert (indices[0] + 1) * w == indices[0] * w + w;
    }
  }

  /** Integer division by a positive divisor is fixed by a remainder below it. */
  lemma DivModOfSum(q: nat, r: nat, w: nat)
    requires r < w
    ensures (q * w + r) / w == q && (q * w + r) % w == r
  {
    var n := q * w + r;
    var q', r' := n / w, n % w;
    assert n == q' * w + r' && 0 <= r' < w;
    assert (q + 1) * w == q * w + w && (q' + 1) * w == q' * w + w;
    if q' > q {
      MulLeft(q + 1, q', w);
    } else if q' < q {
      MulLeft(q' + 1, q, w);
    }
  }

  /** The inverse of the linearization: the index tuple addressing a given
      offset. It shows RowMajorOffset is onto [0, Product(shape)). */
  function Unravel(shape: seq<nat>, offset: nat): (indices: seq<nat>)
    requires offset < Product(shape)
    ensures InBounds(shape, indices)
    ensures RowMajorOffset(shape, indices) == offset
  {
    if shape == [] then []
    else
      var w := Product(shape[1..]);
      DivBelow(offset, shape[0], w);
      var q, r := offset / w, offset % w;
      var tail := Unravel(shape[1..], r);
      assert InBounds(shape, [q] + tail) by {
        forall d | 0 <= d < |shape|
          ensures ([q] + tail)[d] < shape[d]
        {
          if d > 0 { assert ([q] + tail)[d] == tail[d - 1] && shape[d] == shape[1..][d - 1]; }
        }
      }
      assert ([q] + tail)[0] == q && ([q] + tail)[1..] == tail;
      assert RowMajorOffset(shape, [q] + tail) == q * w + r;
      [q] + tail
  }

  /** The linearization is one-to-one on in-bounds tuples: unravelling the
      offset of a tuple gives the tuple back. */
  lemma {:induction false} UnravelOffset(shape: seq<nat>, indices: seq<nat>)
    requires InBounds(shape, indices)
    ensures RowMajorOffset(shape, indices) < Product(shape)
    ensures Unravel(shape, RowMajorOffset(shape, indices)) == indices
  {
    OffsetBelowProduct(shape, indices);
    if shape != [] {
      var w := Product(shape[1..]);
      var rest := RowMajorOffset(shape[1..], indices[1..]);
      assert InBounds(shape[1..], indices[1..]) by {
        forall d | 0 <= d < |shape| - 1
          ensures indices[1..][d] < shape[1..][d]
        {
          assert indices[1..][d] == indices[d + 1] && shape[1..][d] == shape[d + 1];
        }
      }
      UnravelOffset(shape[1..], indices[1..]);
      DivModOfSum(indices[0], rest, w);
      assert indices == [indices[0]] + indices[1..];
    }
  }

  /** Corollary: distinct in-bounds index tuples address distinct elements. */
  lemma OffsetInjective(shape: seq<nat>, a: seq<nat>, b: seq<nat>)
    requires InBounds(shape, a) && InBounds(shape, b)
    requires RowMajorOffset(shape, a) == RowMajorOffset(shape, b)
    ensures a == b
  {
    UnravelOffset(shape, a);
    UnravelOffset(shape, b);
  }

  /** The squeeze the source intends before validating a reshape: keep only
      the dimensions whose size is above 1 (the filter `s > 1`), in order, so
      sizes 1 and 0 are both dropped. The source's delete_unessecary_dimensions
      discards its filtered view, so the model's reshape does NOT apply this;
      it is kept apart to state what the intended step would change. */
  function Squeezed(shape: seq<nat>): (s: seq<nat>)
    ensures forall d :: 0 <= d < |s| ==> s[d] > 1
    ensures forall x :: x > 1 ==> multiset(s)[x] == multiset(shape)[x]
    ensures |s| <= |shape|
  {
    if shape == [] then []
    else
      assert shape == [shape[0]] + shape[1..];
      if shape[0] <= 1 then Squeezed(shape[1..])
      else [shape[0]] + Squeezed(shape[1..])
  }

  /** One dimension squeezes to itself unless its size is 0 or 1. */
  lemma SqueezedSingle(n: nat)
    ensures Squeezed([n]) == if n <= 1 then [] else [n]
  {
    assert [n][1..] == [];
  }

  /** Squeezing works piece by piece and keeps the pieces in order; with
      SqueezedSingle this fixes Squeezed(shape) as the subsequence of
      shape's sizes above 1, in their original order. */
  lemma {:induction false} SqueezedConcat(a: seq<nat>, b: seq<nat>)
    ensures Squeezed(a + b) == Squeezed(a) + Squeezed(b)
  {
    if a == [] {
      assert a + b == b;
    } else {
      assert (a + b)[0] == a[0] && (a + b)[1..] == a[1..] + b;
      SqueezedConcat(a[1..], b);
    }
  }

  /** For a shape with no size-0 dimension squeezing keeps the element
      count, so there the intended squeeze would not change which reshape
      requests are accepted. */
  lemma {:induction false} SqueezedProduct(shape: seq<nat>)
    requires forall d :: 0 <= d < |shape| ==> shape[d] > 0
    ensures Product(Squeezed(shape)) == Product(shape)
  {
    if shape != [] {
      assert forall d :: 0 <= d < |shape| - 1 ==> shape[1..][d] == shape[d + 1];
      SqueezedProduct(shape[1..]);
      if shape[0] > 1 {
        assert ([shape[0]] + Squeezed(shape[1..]))[1..] == Squeezed(shape[1..]);
      }
    }
  }

  /** A shape with a size-0 dimension describes no elements, yet squeezes to
      a shape describing at least one: on an array without elements the
      intended squeeze would refuse every such shape, which the inert code
      accepts. */
  lemma SqueezedDropsZeroSizes(shape: seq<nat>)
    requires 0 in shape
    ensures Product(shape) == 0 && Product(Squeezed(shape)) > 0
  {
  }

  /** The other direction: on an array of n > 1 elements the intended squeeze
      would accept the shape {0, n}, squeezed to {n}, which the inert code
      refuses since it describes no elements. */
  lemma SqueezedAdmitsZeroShape(n: nat)
    requires n > 1
    ensures Product([0, n]) == 0 && Squeezed([0, n]) == [n] && Product(Squeezed([0, n])) == n
  {
    assert [0, n][1..] == [n] && [n][1..] == [];
  }
}
