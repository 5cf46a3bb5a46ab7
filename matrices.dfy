/**
 Real matrices as sequences of rows. A loop of m points in a 2n-dimensional
 space is a matrix with 2n rows (coordinates) and m columns (points).
 */
module Matrices {

  import opened Vectors

  type Matrix = seq<seq<real>>

  /** x has exactly `rows` rows, each of length `cols`. */
  predicate IsMatrix(x: Matrix, rows: nat, cols: nat)
  {
    |x| == rows && forall i :: 0 <= i < |x| ==> |x[i]| == cols
  }

  predicate SameShape(x: Matrix, y: Matrix)
  {
    |x| == |y| && forall i :: 0 <= i < |x| ==> |x[i]| == |y[i]|
  }

  /** Column k. */
  function Col(x: Matrix, k: nat): Vector
    requires forall i :: 0 <= i < |x| ==> k < |x[i]|
  {
    seq(|x|, i requires 0 <= i < |x| => x[i][k])
  }

  function Transpose(x: Matrix, cols: nat): Matrix
    requires IsMatrix(x, |x|, cols)
  {
    seq(cols, k requires 0 <= k < cols => Col(x, k))
  }

  function Identity(d: nat): Matrix
  {
    seq(d, i => seq(d, j => if i == j then 1.0 else 0.0))
  }

  function MAdd(x: Matrix, y: Matrix): (r: Matrix)
    requires SameShape(x, y)
    ensures SameShape(r, x)
  {
    seq(|x|, i requires 0 <= i < |x| => VAdd(x[i], y[i]))
  }

  function MSub(x: Matrix, y: Matrix): (r: Matrix)
    requires SameShape(x, y)
    ensures SameShape(r, x)
  {
    seq(|x|, i requires 0 <= i < |x| => VSub(x[i], y[i]))
  }

  function MNeg(x: Matrix): (r: Matrix)
    ensures SameShape(r, x)
  {
    seq(|x|, i requires 0 <= i < |x| => VNeg(x[i]))
  }

  function MScale(c: real, x: Matrix): (r: Matrix)
    ensures SameShape(r, x)
  {
    seq(|x|, i requires 0 <= i < |x| => VScale(c, x[i]))
  }

  /** Matrix times vector. */
  function MatVec(p: Matrix, v: Vector): Vector
    requires forall i :: 0 <= i < |p| ==> |p[i]| == |v|
  {
    seq(|p|, i requires 0 <= i < |p| => Dot(p[i], v))
  }

  /** Matrix product of p with the matrix q of `cols` columns. */
  function MatMul(p: Matrix, q: Matrix, cols: nat): Matrix
    requires IsMatrix(q, |q|, cols)
    requires forall i :: 0 <= i < |p| ==> |p[i]| == |q|
  {
    seq(|p|, i requires 0 <= i < |p| => seq(cols, k requires 0 <= k < cols => Dot(p[i], Col(q, k))))
  }

  /** Entry-wise (Frobenius) inner product: the sum of all entries of the entry-wise product. */
  function Inner(x: Matrix, y: Matrix): real
    requires SameShape(x, y)
  {
    Sum(seq(|x|, i requires 0 <= i < |x| => Dot(x[i], y[i])))
  }

  /** The columns in the opposite order. */
  function FlipColumns(x: Matrix): (r: Matrix)
    ensures SameShape(r, x)
  {
    seq(|x|, i requires 0 <= i < |x| => Reverse(x[i]))
  }

  /** The vector sum of columns lo .. hi-1. */
  function ColumnSum(x: Matrix, lo: nat, hi: nat): Vector
    requires lo <= hi
    requires forall i :: 0 <= i < |x| ==> hi <= |x[i]|
  {
    seq(|x|, i requires 0 <= i < |x| => Sum(x[i][lo..hi]))
  }

  /** Every row sums to zero. */
  predicate ZeroRowSums(x: Matrix)
  {
    forall i :: 0 <= i < |x| ==> Sum(x[i]) == 0.0
  }

  // -------------------------------------------------------------- shapes

  lemma FlipColumnsTwice(x: Matrix)
    ensures SameShape(FlipColumns(x), x)
    ensures FlipColumns(FlipColumns(x)) == x
  {
    forall i | 0 <= i < |x| ensures FlipColumns(FlipColumns(x))[i] == x[i] {
      assert Reverse(Reverse(x[i])) == x[i];
    }
  }

  // ------------------------------------------------ the inner product laws

  lemma InnerSym(x: Matrix, y: Matrix)
    requires SameShape(x, y)
    ensures Inner(x, y) == Inner(y, x)
  {
    forall i | 0 <= i < |x| ensures Dot(x[i], y[i]) == Dot(y[i], x[i]) {
      DotSym(x[i], y[i]);
    }
    assert seq(|x|, i requires 0 <= i < |x| => Dot(x[i], y[i]))
        == seq(|y|, i requires 0 <= i < |y| => Dot(y[i], x[i]));
  }

  lemma InnerAddLeft(x: Matrix, y: Matrix, z: Matrix)
    requires SameShape(x, y) && SameShape(x, z)
    ensures Inner(MAdd(x, y), z) == Inner(x, z) + Inner(y, z)
  {
    var a := seq(|x|, i requires 0 <= i < |x| => Dot(x[i], z[i]));
    var b := seq(|x|, i requires 0 <= i < |x| => Dot(y[i], z[i]));
    forall i | 0 <= i < |x| ensures Dot(MAdd(x, y)[i], z[i]) == VAdd(a, b)[i] {
      DotAddLeft(x[i], y[i], z[i]);
    }
    assert seq(|x|, i requires 0 <= i < |x| => Dot(MAdd(x, y)[i], z[i])) == VAdd(a, b);
    SumAdd(a, b);
  }

  lemma InnerSubLeft(x: Matrix, y: Matrix, z: Matrix)
    requires SameShape(x, y) && SameShape(x, z)
    ensures Inner(MSub(x, y), z) == Inner(x, z) - Inner(y, z)
  {
    var a := seq(|x|, i requires 0 <= i < |x| => Dot(x[i], z[i]));
    var b := seq(|x|, i requires 0 <= i < |x| => Dot(y[i], z[i]));
    forall i | 0 <= i < |x| ensures Dot(MSub(x, y)[i], z[i]) == VSub(a, b)[i] {
      assert VSub(x[i], y[i]) == VAdd(x[i], VNeg(y[i]));
      DotAddLeft(x[i], VNeg(y[i]), z[i]);
      DotNegLeft(y[i], z[i]);
    }
    assert seq(|x|, i requires 0 <= i < |x| => Dot(MSub(x, y)[i], z[i])) == VSub(a, b);
    SumSub(a, b);
  }

  lemma InnerScaleLeft(c: real, x: Matrix, y: Matrix)
    requires SameShape(x, y)
    ensures Inner(MScale(c, x), y) == c * Inner(x, y)
  {
    var a := seq(|x|, i requires 0 <= i < |x| => Dot(x[i], y[i]));
    forall i | 0 <= i < |x| ensures Dot(MScale(c, x)[i], y[i]) == VScale(c, a)[i] {
      DotScaleLeft(c, x[i], y[i]);
    }
    assert seq(|x|, i requires 0 <= i < |x| => Dot(MScale(c, x)[i], y[i])) == VScale(c, a);
    SumScale(c, a);
  }

  lemma InnerNegLeft(x: Matrix, y: Matrix)
    requires SameShape(x, y)
    ensures Inner(MNeg(x), y) == -Inner(x, y)
  {
    var a := seq(|x|, i requires 0 <= i < |x| => Dot(x[i], y[i]));
    forall i | 0 <= i < |x| ensures Dot(MNeg(x)[i], y[i]) == VNeg(a)[i] {
      DotNegLeft(x[i], y[i]);
    }
    assert seq(|x|, i requires 0 <= i < |x| => Dot(MNeg(x)[i], y[i])) == VNeg(a);
    SumNeg(a);
  }

  lemma InnerAddRight(x: Matrix, y: Matrix, z: Matrix)
    requires SameShape(x, y) && SameShape(x, z)
    ensures Inner(x, MAdd(y, z)) == Inner(x, y) + Inner(x, z)
  {
    InnerSym(x, MAdd(y, z));
    InnerAddLeft(y, z, x);
    InnerSym(y, x);
    InnerSym(z, x);
  }

  lemma InnerScaleRight(c: real, x: Matrix, y: Matrix)
    requires SameShape(x, y)
    ensures Inner(x, MScale(c, y)) == c * Inner(x, y)
  {
    InnerSym(x, MScale(c, y));
    InnerScaleLeft(c, y, x);
    InnerSym(y, x);
  }

  lemma InnerNegRight(x: Matrix, y: Matrix)
    requires SameShape(x, y)
    ensures Inner(x, MNeg(y)) == -Inner(x, y)
  {
    InnerSym(x, MNeg(y));
    InnerNegLeft(y, x);
    InnerSym(y, x);
  }

  /** Reordering the columns of both arguments the same way keeps the inner product. */
  lemma InnerFlip(x: Matrix, y: Matrix)
    requires SameShape(x, y)
    ensures Inner(FlipColumns(x), FlipColumns(y)) == Inner(x, y)
  {
    forall i | 0 <= i < |x| ensures Dot(FlipColumns(x)[i], FlipColumns(y)[i]) == Dot(x[i], y[i]) {
      DotReverse(x[i], y[i]);
    }
    assert seq(|x|, i requires 0 <= i < |x| => Dot(FlipColumns(x)[i], FlipColumns(y)[i]))
        == seq(|x|, i requires 0 <= i < |x| => Dot(x[i], y[i]));
  }

  lemma ColAdd(x: Matrix, y: Matrix, k: nat)
    requires SameShape(x, y) && forall i :: 0 <= i < |x| ==> k < |x[i]|
    ensures Col(MAdd(x, y), k) == VAdd(Col(x, k), Col(y, k))
  {
  }

  lemma ColScale(c: real, x: Matrix, k: nat)
    requires forall i :: 0 <= i < |x| ==> k < |x[i]|
    ensures Col(MScale(c, x), k) == VScale(c, Col(x, k))
  {
    forall i | 0 <= i < |x| ensures Col(MScale(c, x), k)[i] == VScale(c, Col(x, k))[i] {
      assert MScale(c, x)[i] == VScale(c, x[i]);
    }
  }

  // ------------------------------------------------ summing by columns

  /** Summing the row sums or the column sums gives the same total. */
  lemma {:induction false} SumByColumns(a: Matrix, cols: nat)
    requires IsMatrix(a, |a|, cols)
    ensures Sum(seq(|a|, i requires 0 <= i < |a| => Sum(a[i])))
         == Sum(seq(cols, k requires 0 <= k < cols => Sum(Col(a, k))))
    decreases cols
  {
    var rows := seq(|a|, i requires 0 <= i < |a| => Sum(a[i]));
    if cols == 0 {
      SumZero(rows);
    } else {
      var c := cols - 1;
      var a' := seq(|a|, i requires 0 <= i < |a| => a[i][..c]);
      SumByColumns(a', c);
      var rows' := seq(|a|, i requires 0 <= i < |a| => Sum(a'[i]));
      forall i | 0 <= i < |a| ensures rows[i] == VAdd(rows', Col(a, c))[i] {
        SumLast(a[i]);
      }
      assert rows == VAdd(rows', Col(a, c));
      SumAdd(rows', Col(a, c));
      var columns := seq(cols, k requires 0 <= k < cols => Sum(Col(a, k)));
      SumLast(columns);
      forall k | 0 <= k < c ensures Col(a', k) == Col(a, k) {}
      assert columns[..c] == seq(c, k requires 0 <= k < c => Sum(Col(a', k)));
    }
  }

  /** The inner product computed column by column. */
  lemma InnerByColumns(x: Matrix, y: Matrix, cols: nat)
    requires IsMatrix(x, |x|, cols) && IsMatrix(y, |x|, cols)
    ensures Inner(x, y) == Sum(seq(cols, k requires 0 <= k < cols => Dot(Col(x, k), Col(y, k))))
  {
    var h := seq(|x|, i requires 0 <= i < |x| => Mul(x[i], y[i]));
    SumByColumns(h, cols);
    assert seq(|h|, i requires 0 <= i < |h| => Sum(h[i]))
        == seq(|x|, i requires 0 <= i < |x| => Dot(x[i], y[i]));
    forall k | 0 <= k < cols ensures Col(h, k) == Mul(Col(x, k), Col(y, k)) {
      forall i | 0 <= i < |x| ensures Col(h, k)[i] == Mul(Col(x, k), Col(y, k))[i] {
        assert h[i][k] == x[i][k] * y[i][k];
      }
    }
    assert seq(cols, k requires 0 <= k < cols => Sum(Col(h, k)))
        == seq(cols, k requires 0 <= k < cols => Dot(Col(x, k), Col(y, k)));
  }

  // ------------------------------------------------ column sums

  lemma ColumnSumEmpty(x: Matrix, k: nat)
    requires forall i :: 0 <= i < |x| ==> k <= |x[i]|
    ensures ColumnSum(x, k, k) == Zeros(|x|)
  {
  }

  /** Extending the range by one column adds that column. */
  lemma ColumnSumExtend(x: Matrix, lo: nat, hi: nat)
    requires lo <= hi
    requires forall i :: 0 <= i < |x| ==> hi < |x[i]|
    ensures ColumnSum(x, lo, hi + 1) == VAdd(ColumnSum(x, lo, hi), Col(x, hi))
  {
    forall i | 0 <= i < |x| ensures ColumnSum(x, lo, hi + 1)[i] == VAdd(ColumnSum(x, lo, hi), Col(x, hi))[i] {
      var s := x[i][lo..hi + 1];
      SumLast(s);
      assert s[..|s| - 1] == x[i][lo..hi];
    }
  }

  /** Flipping the columns turns a sum of the last columns into a sum of the first ones. */
  lemma ColumnSumFlip(x: Matrix, cols: nat, k: nat)
    requires IsMatrix(x, |x|, cols) && k <= cols
    ensures ColumnSum(FlipColumns(x), cols - k, cols) == ColumnSum(x, 0, k)
  {
    forall i | 0 <= i < |x| ensures ColumnSum(FlipColumns(x), cols - k, cols)[i] == ColumnSum(x, 0, k)[i] {
      assert Reverse(x[i])[cols - k..cols] == Reverse(x[i][..k]);
      SumReverse(x[i][..k]);
    }
  }

}
