/**
 The estimator object: the clamped sizes n and m, the caller's Hamiltonian
 H with its gradient dH and the optional gradient dG of its Legendre
 transform, the symplectic matrix J, and the in-place evaluation of A2n.
 */
module Estimator {

  import opened Options
  import opened Vectors
  import opened Matrices
  import opened Symplectic
  import opened LoopOperators

  /** The contents of a 2-dimensional buffer as rows. */
  function Rows(b: array2<real>): (r: Matrix)
    reads b
    ensures IsMatrix(r, b.Length0, b.Length1)
    ensures forall i, k :: 0 <= i < b.Length0 && 0 <= k < b.Length1 ==> r[i][k] == b[i, k]
  {
    seq(b.Length0, i requires 0 <= i < b.Length0 reads b =>
      seq(b.Length1, k requires 0 <= k < b.Length1 reads b => b[i, k]))
  }

  /**
   The loop of A2n on a rows x cols matrix a: column k of the result is
   the sum of the columns of a after k, added one at a time.
   */
  method AccumulateColumns(a: Matrix, rows: nat, cols: nat) returns (b: array2<real>)
    requires IsMatrix(a, rows, cols)
    ensures fresh(b)
    ensures b.Length0 == rows && b.Length1 == cols
    ensures forall i, k :: 0 <= i < rows && 0 <= k < cols ==> b[i, k] == Sum(a[i][k + 1..cols])
  {
    b := new real[rows, cols]((i, k) => 0.0);
    for k := 0 to cols
      invariant b.Length0 == rows && b.Length1 == cols
      invariant forall i, c :: 0 <= i < rows && 0 <= c < k ==> b[i, c] == Sum(a[i][c + 1..cols])
      invariant forall i, c :: 0 <= i < rows && k <= c < cols ==> b[i, c] == 0.0
    {
      for j := k + 1 to cols
        invariant forall i, c :: 0 <= i < rows && 0 <= c < k ==> b[i, c] == Sum(a[i][c + 1..cols])
        invariant forall i :: 0 <= i < rows ==> b[i, k] == Sum(a[i][k + 1..j])
        invariant forall i, c :: 0 <= i < rows && k < c < cols ==> b[i, c] == 0.0
      {
        forall i | 0 <= i < rows ensures Sum(a[i][k + 1..j + 1]) == Sum(a[i][k + 1..j]) + a[i][j] {
          SumExtend(a[i], k + 1, j);
        }
        forall i | 0 <= i < rows {
          b[i, k] := b[i, k] + a[i][j];
        }
      }
    }
  }

  class HZCapacityEstimator {

    /** Half the dimension of the phase space. */
    const n: nat
    /** The number of points of a discrete loop. */
    const m: nat
    const H: Vector -> real
    const dH: Vector -> Vector
    /** The gradient of the Legendre transform of H, when the caller supplies it. */
    const dg: Option<Vector -> Vector>
    const J: Matrix

    predicate Valid()
    {
      n >= 1 && m >= 3 && J == SymplecticJ(n)
    }

    /** Sizes below the minimum (n < 1, m < 3) are raised to it. */
    constructor (n0: int, m0: int, H0: Vector -> real, dH0: Vector -> Vector, dG0: Option<Vector -> Vector>)
      ensures n == (if n0 >= 1 then n0 else 1)
      ensures m == (if m0 >= 3 then m0 else 3)
      ensures H == H0 && dH == dH0 && dg == dG0
      ensures J == SymplecticJ(n)
      ensures Valid()
    {
      var size := if n0 >= 1 then n0 else 1;
      n := size;
      m := if m0 >= 3 then m0 else 3;
      H := H0;
      dH := dH0;
      dg := dG0;
      J := SymplecticJ(size);
    }

    /**
     Computes A2n x: A = -J x, then the columns of A are accumulated
     into a zero-initialised buffer.
     */
    method A2n(x: Matrix) returns (b: array2<real>)
      requires Valid() && IsMatrix(x, 2 * n, m)
      ensures fresh(b)
      ensures Rows(b) == A2nProduct(n, m, x)
    {
      var A := MNeg(MatMul(J, x, m));
      NegJIsProduct(n, m, x);
      b := AccumulateColumns(A, 2 * n, m);
      forall i | 0 <= i < 2 * n ensures Rows(b)[i] == A2nProduct(n, m, x)[i] {
      }
    }

  }

}
