/** The element arithmetic behind NDArray<int>'s compound operators:
    std::plus, std::minus, std::multiplies and std::divides on int. */
module Elementwise {

  /** The four compound operators += -= *= /=. */
  datatype Op = Add | Sub | Mul | Div

  function Abs(x: int): nat
  {
    if x < 0 then -x else x
  }

  /** C++ integer division: the quotient with its fractional part discarded
      (truncation toward zero), so the remainder x - q * y is smaller than
      the divisor and carries the sign of the dividend. C++ leaves a zero
      divisor undefined, hence the precondition. */
  function TruncDiv(x: int, y: int): (q: int)
    requires y != 0
    ensures Abs(x - q * y) < Abs(y)
    ensures x - q * y == 0 || (x - q * y < 0 <==> x < 0)
  {
    var m: int := Abs(x) / Abs(y);
    var q := if (x < 0) == (y < 0) then m else -m;
    SignedQuotient(x, y, m);
    q
  }

  /** Giving the quotient of the magnitudes the sign of x / y leaves the
      remainder of the magnitudes with the sign of x. */
  lemma SignedQuotient(x: int, y: int, m: int)
    requires y != 0 && m == Abs(x) / Abs(y)
    ensures var q := if (x < 0) == (y < 0) then m else -m;
      x - q * y == if x < 0 then -(Abs(x) % Abs(y)) else Abs(x) % Abs(y)
  {
    var a, b: int := Abs(x), Abs(y);
    assert a == m * b + a % b;
    var q := if (x < 0) == (y < 0) then m else -m;
    if y < 0 {
      assert y == -b;
      assert q * y == (if x < 0 then -(m * b) else m * b);
    } else {
      assert q * y == (if x < 0 then -(m * b) else m * b);
    }
  }

  /** A multiple of k divides back exactly. */
  lemma TruncDivOfMultiple(x: int, k: int)
    requires k != 0
    ensures TruncDiv(x * k, k) == x
  {
    var q := TruncDiv(x * k, k);
    assert x * k - q * k == (x - q) * k;
    if x - q != 0 {
      AbsProduct(x - q, k);
    }
  }

  lemma AbsProduct(a: int, k: int)
    requires a != 0 && k != 0
    ensures Abs(a * k) >= Abs(k)
  {
    if a > 0 && k > 0 {
      assert a * k >= k;
    } else if a > 0 {
      assert a * k <= k;
    } else if k > 0 {
      assert a * k <= -k;
    } else {
      assert a * k >= -k;
    }
  }

  /** What one element becomes under an operator and its right operand. */
  function Apply(op: Op, x: int, y: int): int
    requires op.Div? ==> y != 0
  {
    match op
    case Add => x + y
    case Sub => x - y
    case Mul => x * y
    case Div => TruncDiv(x, y)
  }

  /** std::for_each with `t op= value` over the elements. */
  function ScalarMapped(values: seq<int>, op: Op, scalar: int): seq<int>
    requires op.Div? && values != [] ==> scalar != 0
  {
    seq(|values|, i requires 0 <= i < |values| => Apply(op, values[i], scalar))
  }

  /** std::for_each with `t op= value` where `value` is a reference to the
      element at offset k of the same vector: positions up to k see its old
      value, the later ones see the value it was just given. */
  function AliasedMapped(values: seq<int>, op: Op, k: nat): seq<int>
    requires k < |values|
    requires op.Div? ==> values[k] != 0
  {
    var updated := Apply(op, values[k], values[k]);
    assert op.Div? ==> updated == 1 by {
      if op.Div? {
        TruncDivOfMultiple(1, values[k]);
        assert 1 * values[k] == values[k];
      }
    }
    seq(|values|, i requires 0 <= i < |values| =>
      if i <= k then Apply(op, values[i], values[k]) else Apply(op, values[i], updated))
  }

  /** For += and -= with an aliased element that is not the last, the result
      matches combining with a copy of the element exactly when it is 0. */
  lemma AliasedMatchesCopy(values: seq<int>, op: Op, k: nat)
    requires k + 1 < |values| && (op.Add? || op.Sub?)
    ensures AliasedMapped(values, op, k) == ScalarMapped(values, op, values[k]) <==> values[k] == 0
  {
    var aliased, copied := AliasedMapped(values, op, k), ScalarMapped(values, op, values[k]);
    if aliased == copied {
      assert aliased[k + 1] == copied[k + 1];
    }
    if values[k] == 0 {
      assert forall i :: 0 <= i < |values| ==> aliased[i] == copied[i];
    }
  }

  predicate NonZero(values: seq<int>)
  {
    forall i :: 0 <= i < |values| ==> values[i] != 0
  }

  /** std::transform pairing each element with the element of the other
      operand at the same linear position. */
  function Zipped(values: seq<int>, operands: seq<int>, op: Op): seq<int>
    requires |values| == |operands|
    requires op.Div? ==> NonZero(operands)
  {
    seq(|values|, i requires 0 <= i < |values| => Apply(op, values[i], operands[i]))
  }

  /** `a += k; a -= k;` gives back a's elements. */
  lemma ScalarAddThenSub(values: seq<int>, k: int)
    ensures ScalarMapped(ScalarMapped(values, Add, k), Sub, k) == values
  {
  }

  /** `a *= k; a /= k;` gives back a's elements for a nonzero k. */
  lemma ScalarMulThenDiv(values: seq<int>, k: int)
    requires k != 0
    ensures ScalarMapped(ScalarMapped(values, Mul, k), Div, k) == values
  {
    var r := ScalarMapped(ScalarMapped(values, Mul, k), Div, k);
    forall i | 0 <= i < |values|
      ensures r[i] == values[i]
    {
      TruncDivOfMultiple(values[i], k);
    }
  }

  /** `a += b; a -= b;` gives back a's elements. */
  lemma ZippedAddThenSub(values: seq<int>, operands: seq<int>)
    requires |values| == |operands|
    ensures Zipped(Zipped(values, operands, Add), operands, Sub) == values
  {
  }

  /** `a *= b; a /= b;` gives back a's elements when no element of b is zero. */
  lemma ZippedMulThenDiv(values: seq<int>, operands: seq<int>)
    requires |values| == |operands| && NonZero(operands)
    ensures Zipped(Zipped(values, operands, Mul), operands, Div) == values
  {
    var r := Zipped(Zipped(values, operands, Mul), operands, Div);
    forall i | 0 <= i < |values|
      ensures r[i] == values[i]
    {
      TruncDivOfMultiple(values[i], operands[i]);
    }
  }

  /** An array operand whose elements all equal k acts as the scalar k. */
  lemma ZippedWithConstant(values: seq<int>, op: Op, k: int)
    requires op.Div? ==> k != 0
    ensures Zipped(values, seq(|values|, _ => k), op) == ScalarMapped(values, op, k)
  {
  }
}
