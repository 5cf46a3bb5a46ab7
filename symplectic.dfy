/**
 The standard symplectic matrix J of size 2n and the bilinear form
 Omega(u, w) = <u, -J w> that the discrete action is built from.
 */
module Symplectic {

  import opened Vectors
  import opened Matrices

  /**
   The block matrix [[0, I], [-I, 0]] of size 2n, assembled block row by
   block row: the first n rows are a zero block followed by the identity,
   the last n rows are the negated identity followed by a zero block.
   */
  function SymplecticJ(n: nat): (J: Matrix)
    ensures IsMatrix(J, 2 * n, 2 * n)
  {
    seq(2 * n, i requires 0 <= i < 2 * n => BlockRow(n, i))
  }

  /** Row i of J: (0, e_i) in the upper half, (-e_(i-n), 0) in the lower half. */
  function BlockRow(n: nat, i: nat): (r: Vector)
    requires i < 2 * n
    ensures |r| == 2 * n
  {
    var e := Identity(n)[if i < n then i else i - n];
    assert |e| == n;
    if i < n then Zeros(n) + e else VNeg(e) + Zeros(n)
  }

  /** J has a 1 at (i, n+i), a -1 at (n+i, i), and zeros everywhere else. */
  lemma JEntries(n: nat, i: nat, j: nat)
    requires i < 2 * n && j < 2 * n
    ensures SymplecticJ(n)[i][j] == if j == i + n then 1.0 else if i == j + n then -1.0 else 0.0
  {
    var r := BlockRow(n, i);
    var e := Identity(n)[if i < n then i else i - n];
    if i < n {
      if j >= n { assert r[j] == e[j - n]; } else { assert r[j] == Zeros(n)[j]; }
    } else {
      if j < n { assert r[j] == VNeg(e)[j]; } else { assert r[j] == Zeros(n)[j - n]; }
    }
  }

  /** J is antisymmetric: its transpose is -J. */
  lemma JTranspose(n: nat)
    ensures Transpose(SymplecticJ(n), 2 * n) == MNeg(SymplecticJ(n))
  {
    var J := SymplecticJ(n);
    forall i, j | 0 <= i < 2 * n && 0 <= j < 2 * n
      ensures Transpose(J, 2 * n)[i][j] == MNeg(J)[i][j]
    {
      JEntries(n, i, j);
      JEntries(n, j, i);
    }
    forall i | 0 <= i < 2 * n ensures Transpose(J, 2 * n)[i] == MNeg(J)[i] {}
  }

  /** Applying J to v = (p, q) gives (q, -p). */
  lemma JApply(n: nat, v: Vector)
    requires |v| == 2 * n
    ensures MatVec(SymplecticJ(n), v) == v[n..] + VNeg(v[..n])
  {
    forall i | 0 <= i < 2 * n ensures MatVec(SymplecticJ(n), v)[i] == (v[n..] + VNeg(v[..n]))[i] {
      JRowDot(n, v, i);
    }
  }

  /** Row i of J picks out one entry of v, with the sign of the block it lies in. */
  lemma JRowDot(n: nat, v: Vector, i: nat)
    requires |v| == 2 * n && i < 2 * n
    ensures Dot(SymplecticJ(n)[i], v) == if i < n then v[i + n] else -v[i - n]
  {
    var k := if i < n then i + n else i - n;
    var p := Mul(SymplecticJ(n)[i], v);
    forall j | 0 <= j < 2 * n && j != k ensures p[j] == 0.0 {
      JEntries(n, i, j);
    }
    JEntries(n, i, k);
    SumSingle(p, k);
  }

  /** J squared is minus the identity. */
  lemma JSquared(n: nat)
    ensures MatMul(SymplecticJ(n), SymplecticJ(n), 2 * n) == MNeg(Identity(2 * n))
  {
    var J := SymplecticJ(n);
    forall i, j | 0 <= i < 2 * n && 0 <= j < 2 * n
      ensures MatMul(J, J, 2 * n)[i][j] == MNeg(Identity(2 * n))[i][j]
    {
      var c := Col(J, j);
      JApply(n, c);
      assert MatMul(J, J, 2 * n)[i][j] == MatVec(J, c)[i];
      if i < n {
        JEntries(n, i + n, j);
        assert MatVec(J, c)[i] == c[i + n];
      } else {
        JEntries(n, i - n, j);
        assert MatVec(J, c)[i] == -c[i - n];
      }
    }
    forall i | 0 <= i < 2 * n ensures MatMul(J, J, 2 * n)[i] == MNeg(Identity(2 * n))[i] {}
  }

  // -------------------------------------------------------- the form Omega

  /** -J w = (-q, p) for a point w = (p, q). */
  function Rotate(n: nat, w: Vector): (r: Vector)
    requires |w| == 2 * n
    ensures |r| == 2 * n
  {
    VNeg(w[n..]) + w[..n]
  }

  /** Rotate is multiplication by -J. */
  lemma RotateIsNegJ(n: nat, w: Vector)
    requires |w| == 2 * n
    ensures Rotate(n, w) == VNeg(MatVec(SymplecticJ(n), w))
  {
    JApply(n, w);
    var jw := MatVec(SymplecticJ(n), w);
    forall i | 0 <= i < 2 * n ensures Rotate(n, w)[i] == VNeg(jw)[i] {
      if i >= n { assert w[..n][i - n] == w[i - n]; }
    }
  }

  /** Omega(u, w) = <u, -J w>, the pairing of a loop point with the image of another under -J. */
  function Omega(n: nat, u: Vector, w: Vector): real
    requires |u| == 2 * n && |w| == 2 * n
  {
    Dot(u, Rotate(n, w))
  }

  /** Omega written out on the two halves of its arguments. */
  lemma OmegaHalves(n: nat, u: Vector, w: Vector)
    requires |u| == 2 * n && |w| == 2 * n
    ensures Omega(n, u, w) == Dot(u[n..], w[..n]) - Dot(u[..n], w[n..])
  {
    var z := Rotate(n, w);
    DotSplit(u, z, n);
    assert z[..n] == VNeg(w[n..]);
    assert z[n..] == w[..n];
    DotNegRight(u[..n], w[n..]);
  }

  lemma OmegaAntisymmetric(n: nat, u: Vector, w: Vector)
    requires |u| == 2 * n && |w| == 2 * n
    ensures Omega(n, u, w) == -Omega(n, w, u)
  {
    OmegaHalves(n, u, w);
    OmegaHalves(n, w, u);
    DotSym(u[n..], w[..n]);
    DotSym(u[..n], w[n..]);
  }

  lemma OmegaAddLeft(n: nat, u: Vector, v: Vector, w: Vector)
    requires |u| == 2 * n && |v| == 2 * n && |w| == 2 * n
    ensures Omega(n, VAdd(u, v), w) == Omega(n, u, w) + Omega(n, v, w)
  {
    DotAddLeft(u, v, Rotate(n, w));
  }

  lemma OmegaAddRight(n: nat, u: Vector, v: Vector, w: Vector)
    requires |u| == 2 * n && |v| == 2 * n && |w| == 2 * n
    ensures Omega(n, u, VAdd(v, w)) == Omega(n, u, v) + Omega(n, u, w)
  {
    OmegaAntisymmetric(n, u, VAdd(v, w));
    OmegaAddLeft(n, v, w, u);
    OmegaAntisymmetric(n, u, v);
    OmegaAntisymmetric(n, u, w);
  }

  lemma OmegaZeroLeft(n: nat, w: Vector)
    requires |w| == 2 * n
    ensures Omega(n, Zeros(2 * n), w) == 0.0
  {
    DotZeroLeft(2 * n, Rotate(n, w));
  }

  /** <J p, y> = <-Rotate(p), y> = Omega(p, y): moving J across the inner product changes its sign. */
  lemma OmegaAdjoint(n: nat, p: Vector, y: Vector)
    requires |p| == 2 * n && |y| == 2 * n
    ensures Dot(VNeg(Rotate(n, p)), y) == Omega(n, p, y)
  {
    var z := VNeg(Rotate(n, p));
    DotSplit(z, y, n);
    assert z[..n] == p[n..];
    assert z[n..] == VNeg(p[..n]);
    DotNegLeft(p[..n], y[n..]);
    OmegaHalves(n, p, y);
  }

  // -------------------------------------------- summation by parts

  /** Sum over k of Omega(x_k, y_(k+1) + ... + y_(c-1)): each column of x against the later columns of y. */
  function LaterPairing(n: nat, x: Matrix, y: Matrix, cols: nat, c: nat): real
    requires IsMatrix(x, 2 * n, cols) && IsMatrix(y, 2 * n, cols) && c <= cols
  {
    Sum(seq(c, k requires 0 <= k < c => Omega(n, Col(x, k), ColumnSum(y, k + 1, c))))
  }

  /** Sum over k of Omega(x_0 + ... + x_(k-1), y_k): the earlier columns of x against each column of y. */
  function EarlierPairing(n: nat, x: Matrix, y: Matrix, cols: nat, c: nat): real
    requires IsMatrix(x, 2 * n, cols) && IsMatrix(y, 2 * n, cols) && c <= cols
  {
    Sum(seq(c, k requires 0 <= k < c => Omega(n, ColumnSum(x, 0, k), Col(y, k))))
  }

  /** Sum over k < c of Omega(x_k, v) is Omega of the sum of those columns. */
  lemma {:induction false} OmegaSumLeft(n: nat, x: Matrix, cols: nat, c: nat, v: Vector)
    requires IsMatrix(x, 2 * n, cols) && c <= cols && |v| == 2 * n
    ensures Sum(seq(c, k requires 0 <= k < c => Omega(n, Col(x, k), v))) == Omega(n, ColumnSum(x, 0, c), v)
    decreases c
  {
    var s := seq(c, k requires 0 <= k < c => Omega(n, Col(x, k), v));
    if c == 0 {
      ColumnSumEmpty(x, 0);
      OmegaZeroLeft(n, v);
    } else {
      OmegaSumLeft(n, x, cols, c - 1, v);
      SumLast(s);
      assert s[..c - 1] == seq(c - 1, k requires 0 <= k < c - 1 => Omega(n, Col(x, k), v));
      ColumnSumExtend(x, 0, c - 1);
      OmegaAddLeft(n, ColumnSum(x, 0, c - 1), Col(x, c - 1), v);
    }
  }

  /** Both pairings add the same term when one more column is taken in. */
  lemma LaterPairingStep(n: nat, x: Matrix, y: Matrix, cols: nat, c: nat)
    requires IsMatrix(x, 2 * n, cols) && IsMatrix(y, 2 * n, cols) && c < cols
    ensures LaterPairing(n, x, y, cols, c + 1)
         == LaterPairing(n, x, y, cols, c) + Omega(n, ColumnSum(x, 0, c), Col(y, c))
  {
    var s := seq(c + 1, k requires 0 <= k < c + 1 => Omega(n, Col(x, k), ColumnSum(y, k + 1, c + 1)));
    var earlier := seq(c, k requires 0 <= k < c => Omega(n, Col(x, k), ColumnSum(y, k + 1, c)));
    var added := seq(c, k requires 0 <= k < c => Omega(n, Col(x, k), Col(y, c)));
    SumLast(s);
    LastTermVanishes(n, x, y, cols, c);
    LaterTermsSplit(n, x, y, cols, c);
    SumAdd(earlier, added);
    OmegaSumLeft(n, x, cols, c, Col(y, c));
  }

  /** The last column of x meets an empty sum of later columns. */
  lemma LastTermVanishes(n: nat, x: Matrix, y: Matrix, cols: nat, c: nat)
    requires IsMatrix(x, 2 * n, cols) && IsMatrix(y, 2 * n, cols) && c < cols
    ensures Omega(n, Col(x, c), ColumnSum(y, c + 1, c + 1)) == 0.0
  {
    ColumnSumEmpty(y, c + 1);
    OmegaAntisymmetric(n, Col(x, c), Zeros(2 * n));
    OmegaZeroLeft(n, Col(x, c));
  }

  /** Taking column c of y in adds Omega(x_k, y_c) to every earlier term. */
  lemma LaterTermsSplit(n: nat, x: Matrix, y: Matrix, cols: nat, c: nat)
    requires IsMatrix(x, 2 * n, cols) && IsMatrix(y, 2 * n, cols) && c < cols
    ensures seq(c + 1, k requires 0 <= k < c + 1 => Omega(n, Col(x, k), ColumnSum(y, k + 1, c + 1)))[..c]
         == VAdd(seq(c, k requires 0 <= k < c => Omega(n, Col(x, k), ColumnSum(y, k + 1, c))),
                 seq(c, k requires 0 <= k < c => Omega(n, Col(x, k), Col(y, c))))
  {
    forall k | 0 <= k < c
      ensures Omega(n, Col(x, k), ColumnSum(y, k + 1, c + 1))
           == Omega(n, Col(x, k), ColumnSum(y, k + 1, c)) + Omega(n, Col(x, k), Col(y, c))
    {
      ColumnSumExtend(y, k + 1, c);
      OmegaAddRight(n, Col(x, k), ColumnSum(y, k + 1, c), Col(y, c));
    }
  }

  lemma EarlierPairingStep(n: nat, x: Matrix, y: Matrix, cols: nat, c: nat)
    requires IsMatrix(x, 2 * n, cols) && IsMatrix(y, 2 * n, cols) && c < cols
    ensures EarlierPairing(n, x, y, cols, c + 1)
         == EarlierPairing(n, x, y, cols, c) + Omega(n, ColumnSum(x, 0, c), Col(y, c))
  {
    var s := seq(c + 1, k requires 0 <= k < c + 1 => Omega(n, ColumnSum(x, 0, k), Col(y, k)));
    SumLast(s);
    assert s[..c] == seq(c, k requires 0 <= k < c => Omega(n, ColumnSum(x, 0, k), Col(y, k)));
  }

  /**
   Summation by parts: pairing each column of x with the later columns of y
   gives the same total as pairing the earlier columns of x with each column
   of y; both are the sum of Omega(x_j, y_k) over all j < k.
   */
  lemma {:induction false} SummationByParts(n: nat, x: Matrix, y: Matrix, cols: nat, c: nat)
    requires IsMatrix(x, 2 * n, cols) && IsMatrix(y, 2 * n, cols) && c <= cols
    ensures LaterPairing(n, x, y, cols, c) == EarlierPairing(n, x, y, cols, c)
    decreases c
  {
    if c > 0 {
      SummationByParts(n, x, y, cols, c - 1);
      LaterPairingStep(n, x, y, cols, c - 1);
      EarlierPairingStep(n, x, y, cols, c - 1);
    }
  }

}
