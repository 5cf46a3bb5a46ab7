/**
 The operators the estimator applies to a discrete loop x (2n rows, one per
 coordinate; m columns, one per loop point): the projection onto loops with
 zero sum, the suffix-sum operator A2n, the action constraint f with its
 gradient df, and the tangent direction y_hat of one descent step.
 The estimator's integers n and m are explicit parameters here; the
 estimator object guarantees n >= 1 and m >= 3.
 */
module LoopOperators {

  import opened Options
  import opened Vectors
  import opened Matrices
  import opened Symplectic

  // ------------------------------------------------------------- proj

  /** Subtracts from every coordinate its mean over the m loop points. */
  function Proj(m: nat, x: Matrix): (p: Matrix)
    requires m > 0 && IsMatrix(x, |x|, m)
    ensures IsMatrix(p, |x|, m)
  {
    seq(|x|, i requires 0 <= i < |x| => VShift(x[i], Sum(x[i]) / (m as real)))
  }

  /** Every coordinate of a projected loop sums to zero over the loop. */
  lemma ProjRowSums(m: nat, x: Matrix)
    requires m > 0 && IsMatrix(x, |x|, m)
    ensures ZeroRowSums(Proj(m, x))
  {
    forall i | 0 <= i < |x| ensures Sum(Proj(m, x)[i]) == 0.0 {
      SumShift(x[i], Sum(x[i]) / (m as real));
      CountTimesMean(Sum(x[i]), m);
    }
  }

  /** proj leaves x unchanged exactly when x already has zero row sums. */
  lemma ProjFixedPoints(m: nat, x: Matrix)
    requires m > 0 && IsMatrix(x, |x|, m)
    ensures Proj(m, x) == x <==> ZeroRowSums(x)
  {
    ProjRowSums(m, x);
    if ZeroRowSums(x) {
      forall i | 0 <= i < |x| ensures Proj(m, x)[i] == x[i] {
        assert Sum(x[i]) / (m as real) == 0.0;
      }
    }
  }

  lemma ProjIdempotent(m: nat, x: Matrix)
    requires m > 0 && IsMatrix(x, |x|, m)
    ensures Proj(m, Proj(m, x)) == Proj(m, x)
  {
    ProjRowSums(m, x);
    ProjFixedPoints(m, Proj(m, x));
  }

  /** What proj removes is orthogonal to every loop with zero row sums. */
  lemma ProjOrthogonal(m: nat, x: Matrix, z: Matrix)
    requires m > 0 && IsMatrix(x, |x|, m) && IsMatrix(z, |x|, m)
    requires ZeroRowSums(z)
    ensures Inner(Proj(m, x), z) == Inner(x, z)
  {
    var p := Proj(m, x);
    forall i | 0 <= i < |x| ensures Dot(p[i], z[i]) == Dot(x[i], z[i]) {
      DotShiftLeft(x[i], Sum(x[i]) / (m as real), z[i]);
    }
    assert seq(|p|, i requires 0 <= i < |p| => Dot(p[i], z[i]))
        == seq(|x|, i requires 0 <= i < |x| => Dot(x[i], z[i]));
  }

  /** proj is self-adjoint, as an orthogonal projection is. */
  lemma ProjSelfAdjoint(m: nat, x: Matrix, y: Matrix)
    requires m > 0 && IsMatrix(x, |x|, m) && IsMatrix(y, |x|, m)
    ensures Inner(Proj(m, x), y) == Inner(x, Proj(m, y))
  {
    ProjRowSums(m, x);
    ProjRowSums(m, y);
    ProjOrthogonal(m, y, Proj(m, x));
    ProjOrthogonal(m, x, Proj(m, y));
    InnerSym(Proj(m, x), y);
    InnerSym(Proj(m, x), Proj(m, y));
  }

  // -------------------------------------------------------------- A2n

  /** A = -J x: the loop with every point (p, q) rotated to (-q, p). */
  function NegJ(n: nat, m: nat, x: Matrix): (a: Matrix)
    requires IsMatrix(x, 2 * n, m)
    ensures IsMatrix(a, 2 * n, m)
  {
    seq(2 * n, i requires 0 <= i < 2 * n => RotatedRow(n, m, x, i))
  }

  /** Row i of -J x: minus row i + n of x in the upper half, row i - n in the lower half. */
  function RotatedRow(n: nat, m: nat, x: Matrix, i: nat): (r: Vector)
    requires IsMatrix(x, 2 * n, m) && i < 2 * n
    ensures |r| == m
  {
    if i < n then VNeg(x[i + n]) else x[i - n]
  }

  /** The rotated loop is the matrix product -J x. */
  lemma NegJIsProduct(n: nat, m: nat, x: Matrix)
    requires IsMatrix(x, 2 * n, m)
    ensures NegJ(n, m, x) == MNeg(MatMul(SymplecticJ(n), x, m))
  {
    var p := MNeg(MatMul(SymplecticJ(n), x, m));
    forall i | 0 <= i < 2 * n ensures NegJ(n, m, x)[i] == p[i] {
      forall k | 0 <= k < m ensures NegJ(n, m, x)[i][k] == p[i][k] {
        JRowDot(n, Col(x, k), i);
      }
    }
  }

  /** Column k of A2n x is the sum of the columns after k of A = -J x. */
  function A2nProduct(n: nat, m: nat, x: Matrix): (b: Matrix)
    requires IsMatrix(x, 2 * n, m)
    ensures IsMatrix(b, 2 * n, m)
  {
    var a := NegJ(n, m, x);
    seq(2 * n, i requires 0 <= i < 2 * n => seq(m, k requires 0 <= k < m => Sum(a[i][k + 1..m])))
  }

  /** Entry (i, k) of A2n x: a tail sum of row i + n (negated) or of row i - n of x. */
  lemma A2nEntries(n: nat, m: nat, x: Matrix, i: nat, k: nat)
    requires IsMatrix(x, 2 * n, m) && i < 2 * n && k < m
    ensures A2nProduct(n, m, x)[i][k]
         == if i < n then -Sum(x[i + n][k + 1..m]) else Sum(x[i - n][k + 1..m])
  {
    var r := if i < n then i + n else i - n;
    var tail := if i < n then VNeg(x[r][k + 1..m]) else x[r][k + 1..m];
    forall j | k + 1 <= j < m ensures NegJ(n, m, x)[i][j] == if i < n then -x[r][j] else x[r][j] {
      assert NegJ(n, m, x)[i][j] == RotatedRow(n, m, x, i)[j];
    }
    assert NegJ(n, m, x)[i][k + 1..m] == tail;
    SumNeg(x[r][k + 1..m]);
  }

  /** Column k of A2n x is -J applied to the sum of the points x_j with j > k. */
  lemma A2nColumn(n: nat, m: nat, x: Matrix, k: nat)
    requires IsMatrix(x, 2 * n, m) && k < m
    ensures Col(A2nProduct(n, m, x), k) == Rotate(n, ColumnSum(x, k + 1, m))
  {
    var v := ColumnSum(x, k + 1, m);
    forall i | 0 <= i < 2 * n ensures Col(A2nProduct(n, m, x), k)[i] == Rotate(n, v)[i] {
      A2nEntries(n, m, x, i, k);
      if i >= n { assert v[..n][i - n] == v[i - n]; }
    }
  }

  /** The same column written with the matrix J. */
  lemma A2nColumnSum(n: nat, m: nat, x: Matrix, k: nat)
    requires IsMatrix(x, 2 * n, m) && k < m
    ensures Col(A2nProduct(n, m, x), k) == VNeg(MatVec(SymplecticJ(n), ColumnSum(x, k + 1, m)))
  {
    A2nColumn(n, m, x, k);
    RotateIsNegJ(n, ColumnSum(x, k + 1, m));
  }

  /** Nothing follows the last point, so the last column of A2n x is zero. */
  lemma A2nLastColumn(n: nat, m: nat, x: Matrix)
    requires IsMatrix(x, 2 * n, m) && m > 0
    ensures Col(A2nProduct(n, m, x), m - 1) == Zeros(2 * n)
  {
    forall i | 0 <= i < 2 * n ensures A2nProduct(n, m, x)[i][m - 1] == 0.0 {
      A2nEntries(n, m, x, i, m - 1);
      var r := if i < n then i + n else i - n;
      assert x[r][m..m] == [];
    }
  }

  lemma A2nAdditive(n: nat, m: nat, x: Matrix, y: Matrix)
    requires IsMatrix(x, 2 * n, m) && IsMatrix(y, 2 * n, m)
    ensures A2nProduct(n, m, MAdd(x, y)) == MAdd(A2nProduct(n, m, x), A2nProduct(n, m, y))
  {
    var s := MAdd(x, y);
    forall i, k | 0 <= i < 2 * n && 0 <= k < m
      ensures A2nProduct(n, m, s)[i][k] == A2nProduct(n, m, x)[i][k] + A2nProduct(n, m, y)[i][k]
    {
      A2nEntries(n, m, s, i, k);
      A2nEntries(n, m, x, i, k);
      A2nEntries(n, m, y, i, k);
      var r := if i < n then i + n else i - n;
      AddSlice(x[r], y[r], k + 1, m);
      SumAdd(x[r][k + 1..m], y[r][k + 1..m]);
    }
    forall i | 0 <= i < 2 * n
      ensures A2nProduct(n, m, s)[i] == MAdd(A2nProduct(n, m, x), A2nProduct(n, m, y))[i]
    {
    }
  }

  lemma A2nHomogeneous(n: nat, m: nat, c: real, x: Matrix)
    requires IsMatrix(x, 2 * n, m)
    ensures A2nProduct(n, m, MScale(c, x)) == MScale(c, A2nProduct(n, m, x))
  {
    forall i | 0 <= i < 2 * n
      ensures A2nProduct(n, m, MScale(c, x))[i] == MScale(c, A2nProduct(n, m, x))[i]
    {
      var row := A2nProduct(n, m, x)[i];
      assert MScale(c, A2nProduct(n, m, x))[i] == VScale(c, row);
      forall k | 0 <= k < m ensures A2nProduct(n, m, MScale(c, x))[i][k] == VScale(c, row)[k] {
        A2nScaledEntry(n, m, c, x, i, k);
      }
    }
  }

  lemma A2nScaledEntry(n: nat, m: nat, c: real, x: Matrix, i: nat, k: nat)
    requires IsMatrix(x, 2 * n, m) && i < 2 * n && k < m
    ensures A2nProduct(n, m, MScale(c, x))[i][k] == c * A2nProduct(n, m, x)[i][k]
  {
    var s := MScale(c, x);
    A2nEntries(n, m, s, i, k);
    A2nEntries(n, m, x, i, k);
    var r := if i < n then i + n else i - n;
    ScaleSlice(c, x[r], k + 1, m);
    SumScale(c, x[r][k + 1..m]);
    TimesNeg(c, Sum(x[r][k + 1..m]));
  }

  /** The column-flip form that df subtracts: -flip(A2n(flip x)). */
  function FlippedA2n(n: nat, m: nat, x: Matrix): (t: Matrix)
    requires IsMatrix(x, 2 * n, m)
    ensures IsMatrix(t, 2 * n, m)
  {
    MNeg(FlipColumns(A2nProduct(n, m, FlipColumns(x))))
  }

  /** Column k of -flip(A2n(flip x)) is J applied to the sum of the points x_j with j < k. */
  lemma FlippedA2nColumn(n: nat, m: nat, x: Matrix, k: nat)
    requires IsMatrix(x, 2 * n, m) && k < m
    ensures Col(FlippedA2n(n, m, x), k) == VNeg(Rotate(n, ColumnSum(x, 0, k)))
  {
    var fx := FlipColumns(x);
    var b := A2nProduct(n, m, fx);
    A2nColumn(n, m, fx, m - 1 - k);
    ColumnSumFlip(x, m, k);
    forall i | 0 <= i < 2 * n
      ensures Col(FlippedA2n(n, m, x), k)[i] == VNeg(Rotate(n, ColumnSum(x, 0, k)))[i]
    {
      assert FlippedA2n(n, m, x)[i][k] == -b[i][m - 1 - k];
      assert b[i][m - 1 - k] == Col(b, m - 1 - k)[i];
    }
  }

  /** The same column written with the matrix J. */
  lemma FlippedA2nColumnSum(n: nat, m: nat, x: Matrix, k: nat)
    requires IsMatrix(x, 2 * n, m) && k < m
    ensures Col(FlippedA2n(n, m, x), k) == MatVec(SymplecticJ(n), ColumnSum(x, 0, k))
  {
    FlippedA2nColumn(n, m, x, k);
    RotateIsNegJ(n, ColumnSum(x, 0, k));
  }

  /**
   -flip(A2n(flip x)) is the transpose of A2n: for all loops x and y,
   <-flip(A2n(flip x)), y> = <x, A2n y>.
   */
  lemma A2nAdjoint(n: nat, m: nat, x: Matrix, y: Matrix)
    requires IsMatrix(x, 2 * n, m) && IsMatrix(y, 2 * n, m)
    ensures Inner(FlippedA2n(n, m, x), y) == Inner(x, A2nProduct(n, m, y))
  {
    InnerAsLaterPairing(n, m, x, y);
    InnerAsEarlierPairing(n, m, x, y);
    SummationByParts(n, x, y, m, m);
  }

  lemma InnerAsLaterPairing(n: nat, m: nat, x: Matrix, y: Matrix)
    requires IsMatrix(x, 2 * n, m) && IsMatrix(y, 2 * n, m)
    ensures Inner(x, A2nProduct(n, m, y)) == LaterPairing(n, x, y, m, m)
  {
    var b := A2nProduct(n, m, y);
    InnerByColumns(x, b, m);
    forall k | 0 <= k < m
      ensures Dot(Col(x, k), Col(b, k)) == Omega(n, Col(x, k), ColumnSum(y, k + 1, m))
    {
      A2nColumn(n, m, y, k);
    }
    assert seq(m, k requires 0 <= k < m => Dot(Col(x, k), Col(b, k)))
        == seq(m, k requires 0 <= k < m => Omega(n, Col(x, k), ColumnSum(y, k + 1, m)));
  }

  lemma InnerAsEarlierPairing(n: nat, m: nat, x: Matrix, y: Matrix)
    requires IsMatrix(x, 2 * n, m) && IsMatrix(y, 2 * n, m)
    ensures Inner(FlippedA2n(n, m, x), y) == EarlierPairing(n, x, y, m, m)
  {
    var t := FlippedA2n(n, m, x);
    InnerByColumns(t, y, m);
    forall k | 0 <= k < m
      ensures Dot(Col(t, k), Col(y, k)) == Omega(n, ColumnSum(x, 0, k), Col(y, k))
    {
      FlippedA2nColumn(n, m, x, k);
      OmegaAdjoint(n, ColumnSum(x, 0, k), Col(y, k));
    }
    assert seq(m, k requires 0 <= k < m => Dot(Col(t, k), Col(y, k)))
        == seq(m, k requires 0 <= k < m => Omega(n, ColumnSum(x, 0, k), Col(y, k)));
  }

  // ---------------------------------------------------------------- f

  /** The discrete action constraint f(x) = <x, A2n x> / m^2 - 1. */
  function Constraint(n: nat, m: nat, x: Matrix): real
    requires m > 0 && IsMatrix(x, 2 * n, m)
  {
    Inner(x, A2nProduct(n, m, x)) / ((m as real) * (m as real)) - 1.0
  }

  /** f + 1 is the action <x, A2n x> divided by m^2. */
  lemma ConstraintValue(n: nat, m: nat, x: Matrix)
    requires m > 0 && IsMatrix(x, 2 * n, m)
    ensures Constraint(n, m, x) + 1.0 == Inner(x, A2nProduct(n, m, x)) / ((m as real) * (m as real))
  {
  }

  /** f + 1 is a quadratic form: f(c x) + 1 = c^2 (f(x) + 1). */
  lemma ConstraintHomogeneous(n: nat, m: nat, c: real, x: Matrix)
    requires m > 0 && IsMatrix(x, 2 * n, m)
    ensures Constraint(n, m, MScale(c, x)) + 1.0 == c * c * (Constraint(n, m, x) + 1.0)
  {
    var cx := MScale(c, x);
    ActionHomogeneous(n, m, c, x);
    ConstraintValue(n, m, x);
    ConstraintValue(n, m, cx);
    ScaledQuotient(c, Inner(x, A2nProduct(n, m, x)), Inner(cx, A2nProduct(n, m, cx)),
                   (m as real) * (m as real), Constraint(n, m, x) + 1.0, Constraint(n, m, cx) + 1.0);
  }

  /** The action <x, A2n x> scales with the square of the loop's scale. */
  lemma ActionHomogeneous(n: nat, m: nat, c: real, x: Matrix)
    requires IsMatrix(x, 2 * n, m)
    ensures Inner(MScale(c, x), A2nProduct(n, m, MScale(c, x))) == c * (c * Inner(x, A2nProduct(n, m, x)))
  {
    var b := A2nProduct(n, m, x);
    A2nHomogeneous(n, m, c, x);
    InnerScaleLeft(c, x, MScale(c, b));
    InnerScaleRight(c, x, b);
  }

  /** Reversing the order of the loop points negates f + 1. */
  lemma ConstraintFlip(n: nat, m: nat, x: Matrix)
    requires m > 0 && IsMatrix(x, 2 * n, m)
    ensures Constraint(n, m, FlipColumns(x)) + 1.0 == -(Constraint(n, m, x) + 1.0)
  {
    ActionFlip(n, m, x);
    ConstraintValue(n, m, x);
    ConstraintValue(n, m, FlipColumns(x));
    NegatedQuotient(Inner(x, A2nProduct(n, m, x)), (m as real) * (m as real),
                    Constraint(n, m, x) + 1.0, Constraint(n, m, FlipColumns(x)) + 1.0);
  }

  /** Reversing the order of the loop points negates the action <x, A2n x>. */
  lemma ActionFlip(n: nat, m: nat, x: Matrix)
    requires IsMatrix(x, 2 * n, m)
    ensures Inner(FlipColumns(x), A2nProduct(n, m, FlipColumns(x))) == -Inner(x, A2nProduct(n, m, x))
  {
    var fx := FlipColumns(x);
    var b := A2nProduct(n, m, fx);
    FlipColumnsTwice(x);
    InnerFlip(fx, b);
    InnerNegRight(x, FlipColumns(b));
    InnerSym(x, FlippedA2n(n, m, x));
    A2nAdjoint(n, m, x, x);
  }

  /**
   The rescaling at the end of the starting-point search: a loop with zero
   row sums and f(x) + 1 = c, multiplied by s with s^2 c = 1 (s = 1/sqrt(c)),
   lies on the constraint set f = 0 and still has zero row sums.
   */
  lemma RescaledStart(n: nat, m: nat, x: Matrix, s: real)
    requires m > 0 && IsMatrix(x, 2 * n, m) && ZeroRowSums(x)
    requires s * s * (Constraint(n, m, x) + 1.0) == 1.0
    ensures Constraint(n, m, MScale(s, x)) == 0.0
    ensures ZeroRowSums(MScale(s, x))
  {
    ConstraintHomogeneous(n, m, s, x);
    ScaledRowSums(s, x);
  }

  /**
   The other branch: when f(x) + 1 = c < 0, the loop with its points in
   reverse order, multiplied by s with s^2 (-c) = 1, lies on f = 0 and has
   zero row sums.
   */
  lemma FlippedRescaledStart(n: nat, m: nat, x: Matrix, s: real)
    requires m > 0 && IsMatrix(x, 2 * n, m) && ZeroRowSums(x)
    requires s * s * -(Constraint(n, m, x) + 1.0) == 1.0
    ensures Constraint(n, m, MScale(s, FlipColumns(x))) == 0.0
    ensures ZeroRowSums(MScale(s, FlipColumns(x)))
  {
    ConstraintFlip(n, m, x);
    FlippedScale(s, Constraint(n, m, x) + 1.0, Constraint(n, m, FlipColumns(x)) + 1.0);
    FlippedRowSums(x);
    RescaledStart(n, m, FlipColumns(x), s);
  }

  /** Reversing the order of the loop points keeps zero row sums. */
  lemma FlippedRowSums(x: Matrix)
    requires ZeroRowSums(x)
    ensures ZeroRowSums(FlipColumns(x))
  {
    forall i | 0 <= i < |x| ensures Sum(FlipColumns(x)[i]) == 0.0 {
      SumReverse(x[i]);
    }
  }

  /**
   A loop for which the reversal branch applies: for x = [[1, 0, -1], [0, 1, -1]]
   (n = 1, m = 3), f(x) + 1 = -1/9, so s = 3 rescales its reversal onto f = 0.
   */
  lemma FlippedStartExample()
    ensures Constraint(1, 3, [[1.0, 0.0, -1.0], [0.0, 1.0, -1.0]]) + 1.0 == -1.0 / 9.0
    ensures Constraint(1, 3, MScale(3.0, FlipColumns([[1.0, 0.0, -1.0], [0.0, 1.0, -1.0]]))) == 0.0
  {
    var x := [[1.0, 0.0, -1.0], [0.0, 1.0, -1.0]];
    ExampleAction(x);
    ConstraintValue(1, 3, x);
    assert ZeroRowSums(x) by {
      assert Sum(x[0]) == 0.0 && Sum(x[1]) == 0.0;
    }
    FlippedRescaledStart(1, 3, x, 3.0);
  }

  /** The action of the example loop is -1. */
  lemma ExampleAction(x: Matrix)
    requires x == [[1.0, 0.0, -1.0], [0.0, 1.0, -1.0]]
    ensures Inner(x, A2nProduct(1, 3, x)) == -1.0
  {
    var b := A2nProduct(1, 3, x);
    ExampleA2n(x);
    assert Sum([0.0]) == 0.0;
    assert Sum([0.0, 0.0]) == 0.0;
    assert Sum([-1.0, 0.0]) == -1.0;
    assert Dot(x[0], b[0]) == 0.0 by {
      assert Mul(x[0], b[0]) == [0.0, 0.0, 0.0];
      assert [0.0, 0.0, 0.0][1..] == [0.0, 0.0];
    }
    assert Dot(x[1], b[1]) == -1.0 by {
      assert Mul(x[1], b[1]) == [0.0, -1.0, 0.0];
      assert [0.0, -1.0, 0.0][1..] == [-1.0, 0.0];
    }
    assert seq(|x|, i requires 0 <= i < |x| => Dot(x[i], b[i])) == [0.0, -1.0];
    assert [0.0, -1.0][1..] == [-1.0];
    assert Sum([-1.0]) == -1.0;
    assert Sum([0.0, -1.0]) == -1.0;
  }

  /** A2n of the example loop, entry by entry. */
  lemma ExampleA2n(x: Matrix)
    requires x == [[1.0, 0.0, -1.0], [0.0, 1.0, -1.0]]
    ensures A2nProduct(1, 3, x) == [[0.0, 1.0, 0.0], [-1.0, -1.0, 0.0]]
  {
    var b := A2nProduct(1, 3, x);
    ExampleTails(x[0], x[1]);
    A2nEntries(1, 3, x, 0, 0);
    A2nEntries(1, 3, x, 0, 1);
    A2nEntries(1, 3, x, 0, 2);
    A2nEntries(1, 3, x, 1, 0);
    A2nEntries(1, 3, x, 1, 1);
    A2nEntries(1, 3, x, 1, 2);
    assert b[0] == [0.0, 1.0, 0.0];
    assert b[1] == [-1.0, -1.0, 0.0];
  }

  /** The tail sums of the two rows of the example loop. */
  lemma ExampleTails(p: Vector, q: Vector)
    requires p == [1.0, 0.0, -1.0] && q == [0.0, 1.0, -1.0]
    ensures Sum(p[1..3]) == -1.0 && Sum(p[2..3]) == -1.0 && Sum(p[3..3]) == 0.0
    ensures Sum(q[1..3]) == 0.0 && Sum(q[2..3]) == -1.0 && Sum(q[3..3]) == 0.0
  {
    assert p[1..3] == [0.0, -1.0];
    assert p[2..3] == [-1.0];
    assert q[1..3] == [1.0, -1.0];
    assert q[2..3] == [-1.0];
    assert Sum([-1.0]) == -1.0;
  }

  lemma ScaledRowSums(c: real, x: Matrix)
    requires ZeroRowSums(x)
    ensures ZeroRowSums(MScale(c, x))
  {
    forall i | 0 <= i < |x| ensures Sum(MScale(c, x)[i]) == 0.0 {
      SumScale(c, x[i]);
    }
  }

  // --------------------------------------------------------------- df

  /** df(x) = (A2n x - flip(A2n(flip x))) / m^2. */
  function ConstraintGradient(n: nat, m: nat, x: Matrix): (g: Matrix)
    requires m > 0 && IsMatrix(x, 2 * n, m)
    ensures IsMatrix(g, 2 * n, m)
  {
    MScale(1.0 / ((m as real) * (m as real)),
           MSub(A2nProduct(n, m, x), FlipColumns(A2nProduct(n, m, FlipColumns(x)))))
  }

  /** df(x) is (A2n x - flip(A2n(flip x))) / m^2 = (A2n x + (-flip(A2n(flip x)))) / m^2. */
  lemma GradientIsScaledSum(n: nat, m: nat, x: Matrix)
    requires m > 0 && IsMatrix(x, 2 * n, m)
    ensures ConstraintGradient(n, m, x)
         == MScale(1.0 / ((m as real) * (m as real)), MAdd(A2nProduct(n, m, x), FlippedA2n(n, m, x)))
  {
    var b := A2nProduct(n, m, x);
    var fb := FlipColumns(A2nProduct(n, m, FlipColumns(x)));
    forall i | 0 <= i < 2 * n ensures MSub(b, fb)[i] == MAdd(b, MNeg(fb))[i] {
      assert VSub(b[i], fb[i]) == VAdd(b[i], VNeg(fb[i]));
    }
    assert MSub(b, fb) == MAdd(b, MNeg(fb));
  }

  /** Column k of df(x) is (sum over j > k of -J x_j + sum over j < k of J x_j) / m^2. */
  lemma GradientColumn(n: nat, m: nat, x: Matrix, k: nat)
    requires m > 0 && IsMatrix(x, 2 * n, m) && k < m
    ensures Col(ConstraintGradient(n, m, x), k)
         == VScale(1.0 / ((m as real) * (m as real)),
                   VAdd(Rotate(n, ColumnSum(x, k + 1, m)), VNeg(Rotate(n, ColumnSum(x, 0, k)))))
  {
    var b := A2nProduct(n, m, x);
    var t := FlippedA2n(n, m, x);
    GradientIsScaledSum(n, m, x);
    ColScale(1.0 / ((m as real) * (m as real)), MAdd(b, t), k);
    ColAdd(b, t, k);
    A2nColumn(n, m, x, k);
    FlippedA2nColumn(n, m, x, k);
  }

  /** df(x) = (A2n + A2n^T) x / m^2, stated through the inner product with any loop y. */
  lemma GradientInner(n: nat, m: nat, x: Matrix, y: Matrix)
    requires m > 0 && IsMatrix(x, 2 * n, m) && IsMatrix(y, 2 * n, m)
    ensures Inner(ConstraintGradient(n, m, x), y)
         == (Inner(A2nProduct(n, m, x), y) + Inner(x, A2nProduct(n, m, y))) / ((m as real) * (m as real))
  {
    GradientIsScaledSum(n, m, x);
    A2nAdjoint(n, m, x, y);
    ScaledSumInner(ConstraintGradient(n, m, x), A2nProduct(n, m, x), FlippedA2n(n, m, x), y,
                   (m as real) * (m as real), Inner(x, A2nProduct(n, m, y)));
  }

  /** The inner product of (b + t)/d with y, when <t, y> is known. */
  lemma ScaledSumInner(g: Matrix, b: Matrix, t: Matrix, y: Matrix, d: real, ty: real)
    requires SameShape(b, t) && SameShape(b, y) && d != 0.0
    requires g == MScale(1.0 / d, MAdd(b, t)) && Inner(t, y) == ty
    ensures Inner(g, y) == (Inner(b, y) + ty) / d
  {
    InnerScaleLeft(1.0 / d, MAdd(b, t), y);
    InnerAddLeft(b, t, y);
    ReciprocalQuotient(Inner(g, y), Inner(MAdd(b, t), y), Inner(b, y), ty, d);
  }

  /** df is the exact gradient of f: f(x + h) = f(x) + <df(x), h> + (f(h) + 1). */
  lemma ConstraintExpansion(n: nat, m: nat, x: Matrix, h: Matrix)
    requires m > 0 && IsMatrix(x, 2 * n, m) && IsMatrix(h, 2 * n, m)
    ensures Constraint(n, m, MAdd(x, h))
         == Constraint(n, m, x) + Inner(ConstraintGradient(n, m, x), h) + (Constraint(n, m, h) + 1.0)
  {
    var s := MAdd(x, h);
    var bx := A2nProduct(n, m, x);
    var bh := A2nProduct(n, m, h);
    ActionExpansion(n, m, x, h);
    GradientInner(n, m, x, h);
    InnerSym(bx, h);
    ConstraintValue(n, m, x);
    ConstraintValue(n, m, h);
    ConstraintValue(n, m, s);
    ExpandedQuotient(Inner(s, A2nProduct(n, m, s)), Inner(x, bx), Inner(x, bh), Inner(h, bx), Inner(h, bh),
                     Inner(bx, h), Inner(ConstraintGradient(n, m, x), h), (m as real) * (m as real),
                     Constraint(n, m, s) + 1.0, Constraint(n, m, x) + 1.0, Constraint(n, m, h) + 1.0);
  }

  /** The action of a sum of loops expands into four cross terms. */
  lemma ActionExpansion(n: nat, m: nat, x: Matrix, h: Matrix)
    requires IsMatrix(x, 2 * n, m) && IsMatrix(h, 2 * n, m)
    ensures Inner(MAdd(x, h), A2nProduct(n, m, MAdd(x, h)))
         == Inner(x, A2nProduct(n, m, x)) + Inner(x, A2nProduct(n, m, h))
          + Inner(h, A2nProduct(n, m, x)) + Inner(h, A2nProduct(n, m, h))
  {
    var bx := A2nProduct(n, m, x);
    var bh := A2nProduct(n, m, h);
    A2nAdditive(n, m, x, h);
    InnerAddLeft(x, h, MAdd(bx, bh));
    InnerAddRight(x, bx, bh);
    InnerAddRight(h, bx, bh);
  }

  /** Euler's identity for the quadratic form f + 1: <df(x), x> = 2 (f(x) + 1). */
  lemma GradientEuler(n: nat, m: nat, x: Matrix)
    requires m > 0 && IsMatrix(x, 2 * n, m)
    ensures Inner(ConstraintGradient(n, m, x), x) == 2.0 * (Constraint(n, m, x) + 1.0)
  {
    var bx := A2nProduct(n, m, x);
    GradientInner(n, m, x, x);
    InnerSym(bx, x);
    ConstraintValue(n, m, x);
    DoubledQuotient(Inner(ConstraintGradient(n, m, x), x), Inner(x, bx), (m as real) * (m as real),
                    Constraint(n, m, x) + 1.0);
  }

  // ------------------------------------------------------------ y_hat

  /**
   y_hat: the projected descent direction proj(y) with its component along
   a_H = proj(a) removed. Defined only when <a_H, a_H> is non-zero; the
   floating-point computation yields NaN entries otherwise.
   */
  function TangentDirection(m: nat, a: Matrix, y: Matrix): (t: Option<Matrix>)
    requires m > 0 && IsMatrix(a, |a|, m) && IsMatrix(y, |a|, m)
    ensures t.None? <==> Inner(Proj(m, a), Proj(m, a)) == 0.0
    ensures t.Some? ==> IsMatrix(t.value, |a|, m)
  {
    var aH := Proj(m, a);
    var d := Inner(aH, aH);
    if d == 0.0 then None else Some(MSub(Proj(m, y), MScale(Inner(aH, y) / d, aH)))
  }

  /** y_hat is orthogonal to a_H. */
  lemma TangentOrthogonal(m: nat, a: Matrix, y: Matrix)
    requires m > 0 && IsMatrix(a, |a|, m) && IsMatrix(y, |a|, m)
    requires TangentDirection(m, a, y).Some?
    ensures Inner(TangentDirection(m, a, y).value, Proj(m, a)) == 0.0
  {
    var aH := Proj(m, a);
    var d := Inner(aH, aH);
    var q := Inner(aH, y);
    var c := q / d;
    var t := MSub(Proj(m, y), MScale(c, aH));
    assert TangentDirection(m, a, y).value == t;
    ProjRowSums(m, a);
    InnerSubLeft(Proj(m, y), MScale(c, aH), aH);
    InnerScaleLeft(c, aH, aH);
    ProjOrthogonal(m, y, aH);
    InnerSym(aH, y);
    CancelledComponent(Inner(t, aH), q, d, c);
  }

  /** Every coordinate of y_hat sums to zero over the loop. */
  lemma TangentRowSums(m: nat, a: Matrix, y: Matrix)
    requires m > 0 && IsMatrix(a, |a|, m) && IsMatrix(y, |a|, m)
    requires TangentDirection(m, a, y).Some?
    ensures ZeroRowSums(TangentDirection(m, a, y).value)
  {
    var aH := Proj(m, a);
    var c := Inner(aH, y) / Inner(aH, aH);
    ProjRowSums(m, a);
    ProjRowSums(m, y);
    ScaledRowSums(c, aH);
    forall i | 0 <= i < |a| ensures Sum(TangentDirection(m, a, y).value[i]) == 0.0 {
      SumSub(Proj(m, y)[i], MScale(c, aH)[i]);
    }
  }

  /**
   y_hat is the orthogonal projection of y onto the loops that have zero row
   sums and are orthogonal to a_H: y and y_hat have the same inner product
   with every such loop z.
   */
  lemma TangentProjection(m: nat, a: Matrix, y: Matrix, z: Matrix)
    requires m > 0 && IsMatrix(a, |a|, m) && IsMatrix(y, |a|, m) && IsMatrix(z, |a|, m)
    requires TangentDirection(m, a, y).Some?
    requires ZeroRowSums(z) && Inner(z, Proj(m, a)) == 0.0
    ensures Inner(TangentDirection(m, a, y).value, z) == Inner(y, z)
  {
    var aH := Proj(m, a);
    var c := Inner(aH, y) / Inner(aH, aH);
    InnerSubLeft(Proj(m, y), MScale(c, aH), z);
    InnerScaleLeft(c, aH, z);
    InnerSym(aH, z);
    ProjOrthogonal(m, y, z);
  }

  /** Taking the tangent direction of y_hat again gives y_hat back. */
  lemma TangentIdempotent(m: nat, a: Matrix, y: Matrix)
    requires m > 0 && IsMatrix(a, |a|, m) && IsMatrix(y, |a|, m)
    requires TangentDirection(m, a, y).Some?
    ensures TangentDirection(m, a, TangentDirection(m, a, y).value) == TangentDirection(m, a, y)
  {
    var aH := Proj(m, a);
    var w := TangentDirection(m, a, y).value;
    TangentRowSums(m, a, y);
    ProjFixedPoints(m, w);
    TangentOrthogonal(m, a, y);
    InnerSym(w, aH);
    var c := Inner(aH, w) / Inner(aH, aH);
    assert c == 0.0;
    forall i | 0 <= i < |a| ensures MSub(w, MScale(c, aH))[i] == w[i] {
      forall k | 0 <= k < m ensures MSub(w, MScale(c, aH))[i][k] == w[i][k] {
        assert MScale(c, aH)[i][k] == 0.0 * aH[i][k];
      }
    }
    assert MSub(w, MScale(c, aH)) == w;
  }

  /** When every coordinate of a is the same at all loop points, the direction is undefined. */
  lemma TangentUndefinedForConstantLoop(m: nat, a: Matrix, y: Matrix)
    requires m > 0 && IsMatrix(a, |a|, m) && IsMatrix(y, |a|, m)
    requires forall i, k :: 0 <= i < |a| && 0 <= k < m ==> a[i][k] == a[i][0]
    ensures TangentDirection(m, a, y).None?
  {
    var aH := Proj(m, a);
    forall i | 0 <= i < |a| ensures aH[i] == Zeros(m) {
      SumConstant(a[i], a[i][0], m);
      MeanOfConstant(a[i][0], m, Sum(a[i]));
      forall k | 0 <= k < m ensures aH[i][k] == 0.0 {
        assert aH[i][k] == a[i][k] - Sum(a[i]) / (m as real);
      }
    }
    forall i | 0 <= i < |a| ensures Dot(aH[i], aH[i]) == 0.0 {
      DotZeroLeft(m, aH[i]);
    }
    SumZero(seq(|aH|, i requires 0 <= i < |aH| => Dot(aH[i], aH[i])));
  }

  // ------------------------------------------------ arithmetic helpers

  lemma {:induction false} SumConstant(s: seq<real>, c: real, len: nat)
    requires |s| == len
    requires forall k :: 0 <= k < |s| ==> s[k] == c
    ensures Sum(s) == (len as real) * c
  {
    if |s| > 0 {
      SumConstant(s[1..], c, len - 1);
      assert ((len - 1) as real) * c + c == (len as real) * c;
    }
  }

  lemma TimesNeg(c: real, a: real)
    ensures -(c * a) == c * -a
  {
  }

  lemma CountTimesMean(s: real, m: nat)
    requires m > 0
    ensures (m as real) * (s / (m as real)) == s
  {
  }

  lemma MeanOfConstant(c: real, m: nat, total: real)
    requires m > 0 && total == (m as real) * c
    ensures total / (m as real) == c
  {
  }

  lemma DivScale(c: real, a: real, d: real)
    requires d != 0.0
    ensures (c * a) / d == c * (a / d)
  {
  }

  lemma DivAdd(a: real, b: real, d: real)
    requires d != 0.0
    ensures (a + b) / d == a / d + b / d
  {
  }

  /** With r = q / d and s = c (c q) / d, s = c^2 r. */
  lemma ScaledQuotient(c: real, q: real, qs: real, d: real, r: real, s: real)
    requires d != 0.0 && r == q / d && s == qs / d && qs == c * (c * q)
    ensures s == c * c * r
  {
    DivScale(c, c * q, d);
    DivScale(c, q, d);
    assert c * (c * r) == c * c * r;
  }

  lemma NegatedQuotient(q: real, d: real, r: real, s: real)
    requires d != 0.0 && r == q / d && s == (-q) / d
    ensures s == -r
  {
  }

  lemma ReciprocalQuotient(g: real, s: real, a: real, b: real, d: real)
    requires d != 0.0 && g == 1.0 / d * s && s == a + b
    ensures g == (a + b) / d
  {
  }

  lemma ExpandedQuotient(qs: real, qxx: real, qxh: real, qhx: real, qhh: real, bxh: real, gh: real, d: real,
                         rs: real, rx: real, rh: real)
    requires d != 0.0 && qs == qxx + qxh + qhx + qhh && bxh == qhx && gh == (bxh + qxh) / d
    requires rs == qs / d && rx == qxx / d && rh == qhh / d
    ensures rs == rx + gh + rh
  {
    DivAdd(qxx + qxh + qhx, qhh, d);
    DivAdd(qxx, qxh + qhx, d);
    assert qxx + qxh + qhx == qxx + (qxh + qhx);
    DivAdd(qhx, qxh, d);
    assert qxh + qhx == qhx + qxh;
  }

  lemma FlippedScale(s: real, r: real, rf: real)
    requires rf == -r && s * s * -r == 1.0
    ensures s * s * rf == 1.0
  {
  }

  lemma DoubledQuotient(g: real, q: real, d: real, r: real)
    requires d != 0.0 && g == (q + q) / d && r == q / d
    ensures g == 2.0 * r
  {
    DivAdd(q, q, d);
  }

  lemma CancelledComponent(r: real, q: real, d: real, c: real)
    requires d != 0.0 && c == q / d && r == q - c * d
    ensures r == 0.0
  {
    QuotientTimes(q, d);
  }

  lemma QuotientTimes(a: real, d: real)
    requires d != 0.0
    ensures (a / d) * d == a
  {
  }

}
