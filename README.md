# Exact linear algebra of the Hofer–Zehnder capacity estimator

`HZCapacityEstimator` estimates the Hofer–Zehnder capacity of a convex body in
R^2n. It does this by projected gradient descent over discrete closed loops.
A loop is stored as a 2n × m matrix x: row i is a coordinate and column k is
the k-th point of the loop. This project models the exact linear-algebra
layer the descent is built on, over unbounded reals:

- the estimator object. Its constructor raises n to at least 1 and m to at
  least 3, stores the caller's H, dH and optional dG, and builds the
  symplectic matrix J = [[0, I], [−I, 0]];
- `proj`, the projection onto loops whose rows sum to zero;
- `A2n`, which accumulates the columns of A = −J x into a zero buffer. It is
  modelled as an imperative method over a 2-dimensional array, proved equal
  to a pure suffix-sum definition;
- the action constraint `f(x) = <x, A2n x>/m² − 1` and its gradient `df`;
- the tangent direction `y_hat` of one descent step (part 1 of `estimate`).

Modules:

- `Vectors`: sums, dot products and entrywise operations on `seq<real>`.
- `Matrices`: matrices as sequences of rows, and `Inner` (the sum of
  entrywise products, numpy's `np.sum(x*y)`). Also holds column sums and
  column reversal (`np.flip(x, axis=1)`).
- `Symplectic`: J, the rotation −J w, the symplectic pairing
  ω(u, w) = <u, −J w>, and discrete summation by parts.
- `LoopOperators`: `Proj`, `A2nProduct`, `Constraint` (f),
  `ConstraintGradient` (df), `TangentDirection` (y_hat), and their
  properties.
- `Estimator`: the class `HZCapacityEstimator` and its in-place `A2n`.

The central result is `A2nAdjoint`. It says that −flip(A2n(flip x)), the
second term of `df`, is the transpose of A2n applied to x:
<−flip(A2n(flip x)), y> = <x, A2n y> for all x and y. The proof uses
summation by parts against the antisymmetric pairing ω. Together with
linearity it gives `df` as the true gradient of `f`
(`ConstraintExpansion`, `GradientEuler`).

When no dG is supplied, `dG` solves dH(x) = y with `scipy.optimize.root`
(HZCapacityEstimator.py:38-43), and `estimate` backtracks its step by
halving (lines 170-183). Neither is part of this model.

A note on `randomStartingPoint` (lines 107-121). The sampling loop starts
from c = 0 and runs while c < epsilon (lines 111-112).
- With epsilon > 0 it leaves only with c ≥ epsilon > 0, so the
  column-reversal branch (lines 120-121) is never taken.
- With epsilon ≤ 0 the loop body never runs and x is never assigned, so
  line 121 fails on an unbound name instead of returning a loop.

In exact arithmetic the reversal branch therefore never returns a loop; only
a NaN value of c could reach it with a sampled x. `FlippedRescaledStart`
proves the claim made in the comment at line 120: reversing the columns
negates f + 1, and the reversed loop, rescaled, lies on f = 0. It does not
model a path that can run. Its precondition can be met: for
x = [[1, 0, −1], [0, 1, −1]] (n = 1, m = 3), f(x) + 1 = −1/9 and
s = 3 satisfies it (`FlippedStartExample`).

## Model

| member | source | states |
|---|---|---|
| Estimator.HZCapacityEstimator.constructor | HZCapacityEstimator.py:9-27 | n is n0 when n0 ≥ 1 and 1 otherwise; m is m0 when m0 ≥ 3 and 3 otherwise; H, dH and dG are stored unchanged (None stays None); J is the symplectic matrix of size 2n |
| Estimator.HZCapacityEstimator.A2n | HZCapacityEstimator.py:82-93 | the buffer filled by the double loop over A = −J x is exactly A2n x: entry (i, k) is the sum of entries j > k of row i of −J x |
| Estimator.AccumulateColumns | HZCapacityEstimator.py:87-91 | after the loops, column k of the zero-initialised buffer holds the sum of the columns j > k of A |
| Symplectic.SymplecticJ | HZCapacityEstimator.py:24-27 | J is a 2n × 2n matrix |
| Symplectic.JEntries | HZCapacityEstimator.py:24-27 | J[i][j] is 1 when j = i + n, −1 when i = j + n, and 0 elsewhere, i.e. the block matrix [[0, I], [−I, 0]] |
| Symplectic.JTranspose | HZCapacityEstimator.py:24-27 | the transpose of J is −J |
| Symplectic.JSquared | HZCapacityEstimator.py:24-27 | J·J = −I |
| Symplectic.JApply | HZCapacityEstimator.py:24-27 | J maps (p, q) to (q, −p) for every vector of length 2n |
| Symplectic.Rotate | HZCapacityEstimator.py:86 | the rotation (p, q) ↦ (−q, p) of a vector of length 2n, which is −J w (proved by `RotateIsNegJ`); it keeps the length 2n |
| Symplectic.RotateIsNegJ | HZCapacityEstimator.py:86 | the rotation used for A equals −J w |
| Symplectic.OmegaAntisymmetric | HZCapacityEstimator.py:24-27 | the pairing ω(u, w) = <u, −J w> satisfies ω(u, w) = −ω(w, u) |
| Symplectic.OmegaAdjoint | HZCapacityEstimator.py:24-27 | <J w, y> = ω(w, y), i.e. moving J across the inner product changes its sign |
| Symplectic.SummationByParts | HZCapacityEstimator.py:89-91 | pairing each column of x with the sum of the later columns of y equals pairing each column of y with the sum of the earlier columns of x |
| LoopOperators.Proj | HZCapacityEstimator.py:53-60 | proj keeps the 2n × m shape of its argument |
| LoopOperators.ProjRowSums | HZCapacityEstimator.py:53-60 | every row of proj x sums to zero |
| LoopOperators.ProjFixedPoints | HZCapacityEstimator.py:53-60 | proj x = x exactly when every row of x sums to zero |
| LoopOperators.ProjIdempotent | HZCapacityEstimator.py:53-60 | proj(proj x) = proj x |
| LoopOperators.ProjOrthogonal | HZCapacityEstimator.py:53-60 | against a loop z whose rows sum to zero, <proj x, z> = <x, z> (the removed part is orthogonal to the subspace) |
| LoopOperators.ProjSelfAdjoint | HZCapacityEstimator.py:53-60 | <proj x, y> = <x, proj y> |
| LoopOperators.NegJ | HZCapacityEstimator.py:86 | A = −J x built row by row: a 2n × m matrix, equal to −np.dot(J, x) by `NegJIsProduct` |
| LoopOperators.NegJIsProduct | HZCapacityEstimator.py:86 | the matrix A whose columns are accumulated is −J x, computed as a matrix product |
| LoopOperators.A2nProduct | HZCapacityEstimator.py:82-93 | A2n x has the shape of x |
| LoopOperators.A2nEntries | HZCapacityEstimator.py:86-91 | entry (i, k) of A2n x is −(sum of row i + n after column k) for i < n, and +(sum of row i − n after column k) for i ≥ n |
| LoopOperators.A2nColumn | HZCapacityEstimator.py:86-91 | column k of A2n x is the rotation −J applied to the sum of the columns of x after k |
| LoopOperators.A2nColumnSum | HZCapacityEstimator.py:86-91 | column k of A2n x is Σ over j > k of −J x_j, written with the matrix J |
| LoopOperators.A2nLastColumn | HZCapacityEstimator.py:89-91 | the last column of A2n x is zero |
| LoopOperators.A2nAdditive | HZCapacityEstimator.py:82-93 | A2n(x + y) = A2n x + A2n y |
| LoopOperators.A2nHomogeneous | HZCapacityEstimator.py:82-93 | A2n(c·x) = c·A2n x |
| LoopOperators.FlippedA2n | HZCapacityEstimator.py:105 | −flip(A2n(flip x)), the subtracted term of df, a 2n × m matrix; its columns are given by `FlippedA2nColumn` and `FlippedA2nColumnSum`, and `A2nAdjoint` shows it is A2nᵀ x |
| LoopOperators.FlippedA2nColumn | HZCapacityEstimator.py:105 | column k of −flip(A2n(flip x)) is +J applied to the sum of the columns of x before k, written with the rotation |
| LoopOperators.FlippedA2nColumnSum | HZCapacityEstimator.py:105 | column k of −flip(A2n(flip x)) is J applied to the sum of the columns of x before k |
| LoopOperators.A2nAdjoint | HZCapacityEstimator.py:101-105 | −flip(A2n(flip x)) is the transpose of A2n applied to x: <−flip(A2n(flip x)), y> = <x, A2n y> for all x, y; with `GradientInner` this gives df x = (A2n + A2nᵀ) x/m², the claim of line 102 |
| LoopOperators.Constraint | HZCapacityEstimator.py:95-99 | f(x) = <x, A2n x>/m² − 1, a quadratic form minus 1: `ConstraintHomogeneous` proves f(c·x) + 1 = c²(f(x) + 1), `ConstraintFlip` that reversing the columns negates f + 1, and `ConstraintExpansion` that df is its exact gradient |
| LoopOperators.ConstraintHomogeneous | HZCapacityEstimator.py:95-99 | f(c·x) + 1 = c²·(f(x) + 1) |
| LoopOperators.ConstraintFlip | HZCapacityEstimator.py:120-121 | reversing the order of the columns negates f(x) + 1 |
| LoopOperators.RescaledStart | HZCapacityEstimator.py:114-118 | if the rows of x sum to zero and s²·(f(x) + 1) = 1, then s·x still has zero row sums and f(s·x) = 0, so it lies on the constraint set |
| LoopOperators.FlippedRescaledStart | HZCapacityEstimator.py:114-121 | if the rows of x sum to zero and s²·(−(f(x) + 1)) = 1, then s·flip(x) has zero row sums and f(s·flip x) = 0 |
| LoopOperators.FlippedStartExample | HZCapacityEstimator.py:117-121 | for x = [[1, 0, −1], [0, 1, −1]] with n = 1, m = 3, f(x) + 1 = −1/9, and the reversed loop scaled by s = 3 satisfies f = 0: the hypothesis of the reversal lemma can be met |
| LoopOperators.ScaledRowSums | HZCapacityEstimator.py:117-121 | scaling keeps zero row sums |
| LoopOperators.ConstraintGradient | HZCapacityEstimator.py:101-105 | df x has the shape of x |
| LoopOperators.GradientColumn | HZCapacityEstimator.py:101-105 | column k of df x is (−J Σ_{j>k} x_j + J Σ_{j<k} x_j)/m² |
| LoopOperators.GradientInner | HZCapacityEstimator.py:101-105 | <df x, y> = (<A2n x, y> + <x, A2n y>)/m² for every y, i.e. with `A2nAdjoint` df x = (A2n + A2nᵀ) x/m² |
| LoopOperators.ConstraintExpansion | HZCapacityEstimator.py:95-105 | f(x + h) = f(x) + <df x, h> + (f(h) + 1): df is the exact gradient of the quadratic f |
| LoopOperators.GradientEuler | HZCapacityEstimator.py:95-105 | <df x, x> = 2(f(x) + 1), Euler's identity for the quadratic f + 1 |
| LoopOperators.TangentDirection | HZCapacityEstimator.py:144-145 | y_hat is undefined (None) exactly when <a_H, a_H> = 0; when defined it has the shape of y |
| LoopOperators.TangentOrthogonal | HZCapacityEstimator.py:144-145 | <y_hat, a_H> = 0: the step is tangent to the constraint f = const |
| LoopOperators.TangentRowSums | HZCapacityEstimator.py:144-145 | every row of y_hat sums to zero: the step stays in the subspace of proj |
| LoopOperators.TangentProjection | HZCapacityEstimator.py:144-145 | for every z with zero row sums orthogonal to a_H, <y_hat, z> = <y, z>: y_hat is the orthogonal projection of y onto that subspace |
| LoopOperators.TangentIdempotent | HZCapacityEstimator.py:144-145 | applying y_hat to y_hat itself changes nothing |
| LoopOperators.TangentUndefinedForConstantLoop | HZCapacityEstimator.py:144-145 | if every column of a is the same point, then a_H = 0 and y_hat is undefined |

## Left out

- `estimate` (HZCapacityEstimator.py:123-188): the descent loop, the early stop, the step bound L_max and the halving line search depend on F and dF and on floating-point square roots. They are not modelled.
- `LegendreTransformEquation`, `dG`, `G`, `F` and `dF` (lines 31-80): they call the caller's H, dH and dG and `scipy.optimize.root`, which are foreign code. The constructor stores H, dH and dG, but no modelled operation calls them.
- `randomStartingPoint` (lines 107-121): the random sampling and the square root are left out. The lemmas take any s with s²·|f(x) + 1| = 1 in place of 1/sqrt(c).
- The message printed when dG is missing (line 20) and `plot` (lines 190-192): output only, not modelled.
- Floating point: every quantity is an exact real. Rounding, overflow and numpy's warnings are not modelled. `m**2.` is written (m as real)·(m as real).
- LoopOperators.TangentDirection: where numpy divides 0 by 0 and yields NaN entries, the model returns None. None happens exactly when <a_H, a_H> = 0, and a constant loop a causes it. The converse (a_H ≠ 0 implies <a_H, a_H> ≠ 0) is not proved.
- LoopOperators.A2nAdjoint: A2nᵀ is stated as the adjoint relation <−flip(A2n(flip x)), y> = <x, A2n y> for all y. No transposed matrix is built and compared entrywise. The two statements are equivalent.
- Loop sizes: the pure functions take n and m as parameters. Only the class ties them to the clamped values.
- Estimator.HZCapacityEstimator.A2n: A = −J x is a value (`seq`), and only the buffer b is an array updated in place. The column update `b[:,k] += A[:,j]` is a parallel assignment over the rows.
