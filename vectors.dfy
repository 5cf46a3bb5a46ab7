/**
 Real vectors as sequences: entry-wise operations, sums and the ordinary
 inner product, with the algebraic laws the loop operators rely on.
 */
module Vectors {

  type Vector = seq<real>

  /** The sum of all entries. */
  function Sum(s: seq<real>): real
  {
    if |s| == 0 then 0.0 else s[0] + Sum(s[1..])
  }

  function Zeros(d: nat): (r: Vector)
    ensures |r| == d
  {
    seq(d, i => 0.0)
  }

  function VAdd(u: Vector, v: Vector): (r: Vector)
    requires |u| == |v|
    ensures |r| == |u|
  {
    seq(|u|, i requires 0 <= i < |u| => u[i] + v[i])
  }

  function VSub(u: Vector, v: Vector): (r: Vector)
    requires |u| == |v|
    ensures |r| == |u|
  {
    seq(|u|, i requires 0 <= i < |u| => u[i] - v[i])
  }

  function VNeg(u: Vector): (r: Vector)
    ensures |r| == |u|
  {
    seq(|u|, i requires 0 <= i < |u| => -u[i])
  }

  function VScale(c: real, u: Vector): (r: Vector)
    ensures |r| == |u|
  {
    seq(|u|, i requires 0 <= i < |u| => c * u[i])
  }

  /** Subtracts the scalar c from every entry (a broadcast subtraction). */
  function VShift(u: Vector, c: real): (r: Vector)
    ensures |r| == |u|
  {
    seq(|u|, i requires 0 <= i < |u| => u[i] - c)
  }

  /** The entries in the opposite order. */
  function Reverse(u: Vector): (r: Vector)
    ensures |r| == |u|
  {
    seq(|u|, i requires 0 <= i < |u| => u[|u| - 1 - i])
  }

  /** Entry-wise product. */
  function Mul(u: Vector, v: Vector): (r: Vector)
    requires |u| == |v|
    ensures |r| == |u|
  {
    seq(|u|, i requires 0 <= i < |u| => u[i] * v[i])
  }

  /** The ordinary inner product. */
  function Dot(u: Vector, v: Vector): real
    requires |u| == |v|
  {
    Sum(Mul(u, v))
  }

  // ---------------------------------------------------------------- sums

  lemma {:induction false} SumConcat(a: seq<real>, b: seq<real>)
    ensures Sum(a + b) == Sum(a) + Sum(b)
  {
    if |a| == 0 {
      assert a + b == b;
    } else {
      assert (a + b)[1..] == a[1..] + b;
      SumConcat(a[1..], b);
    }
  }

  lemma SumLast(s: seq<real>)
    requires |s| > 0
    ensures Sum(s) == Sum(s[..|s| - 1]) + s[|s| - 1]
  {
    assert s == s[..|s| - 1] + [s[|s| - 1]];
    SumConcat(s[..|s| - 1], [s[|s| - 1]]);
  }

  /** Extending a slice by one entry adds that entry to its sum. */
  lemma SumExtend(s: seq<real>, lo: nat, hi: nat)
    requires lo <= hi < |s|
    ensures Sum(s[lo..hi + 1]) == Sum(s[lo..hi]) + s[hi]
  {
    SumLast(s[lo..hi + 1]);
    assert s[lo..hi + 1][..hi - lo] == s[lo..hi];
  }

  lemma {:induction false} SumZero(s: seq<real>)
    requires forall i :: 0 <= i < |s| ==> s[i] == 0.0
    ensures Sum(s) == 0.0
  {
    if |s| > 0 {
      SumZero(s[1..]);
    }
  }

  /** A sum with a single (possibly) non-zero entry is that entry. */
  lemma SumSingle(s: seq<real>, k: nat)
    requires k < |s|
    requires forall j :: 0 <= j < |s| && j != k ==> s[j] == 0.0
    ensures Sum(s) == s[k]
  {
    assert s == s[..k] + [s[k]] + s[k + 1..];
    SumConcat(s[..k] + [s[k]], s[k + 1..]);
    SumConcat(s[..k], [s[k]]);
    SumZero(s[..k]);
    SumZero(s[k + 1..]);
  }

  lemma {:induction false} SumAdd(s: Vector, t: Vector)
    requires |s| == |t|
    ensures Sum(VAdd(s, t)) == Sum(s) + Sum(t)
  {
    if |s| > 0 {
      assert VAdd(s, t)[1..] == VAdd(s[1..], t[1..]);
      SumAdd(s[1..], t[1..]);
    }
  }

  lemma {:induction false} SumScale(c: real, s: Vector)
    ensures Sum(VScale(c, s)) == c * Sum(s)
  {
    if |s| > 0 {
      forall i | 0 <= i < |s| - 1 ensures VScale(c, s)[1..][i] == VScale(c, s[1..])[i] {}
      assert VScale(c, s)[1..] == VScale(c, s[1..]);
      SumScale(c, s[1..]);
      assert c * s[0] + c * Sum(s[1..]) == c * (s[0] + Sum(s[1..]));
    }
  }

  lemma {:induction false} SumSub(s: Vector, t: Vector)
    requires |s| == |t|
    ensures Sum(VSub(s, t)) == Sum(s) - Sum(t)
  {
    if |s| > 0 {
      assert VSub(s, t)[1..] == VSub(s[1..], t[1..]);
      SumSub(s[1..], t[1..]);
    }
  }

  lemma {:induction false} SumNeg(s: Vector)
    ensures Sum(VNeg(s)) == -Sum(s)
  {
    if |s| > 0 {
      assert VNeg(s)[1..] == VNeg(s[1..]);
      SumNeg(s[1..]);
    }
  }

  lemma {:induction false} SumShift(s: Vector, c: real)
    ensures Sum(VShift(s, c)) == Sum(s) - (|s| as real) * c
  {
    if |s| > 0 {
      assert VShift(s, c)[1..] == VShift(s[1..], c);
      SumShift(s[1..], c);
    }
  }

  lemma {:induction false} SumReverse(s: Vector)
    ensures Sum(Reverse(s)) == Sum(s)
  {
    if |s| > 0 {
      assert Reverse(s) == Reverse(s[1..]) + [s[0]];
      SumConcat(Reverse(s[1..]), [s[0]]);
      SumReverse(s[1..]);
    }
  }

  lemma ScaleSlice(c: real, u: Vector, lo: nat, hi: nat)
    requires lo <= hi <= |u|
    ensures VScale(c, u)[lo..hi] == VScale(c, u[lo..hi])
  {
    forall j | 0 <= j < hi - lo ensures VScale(c, u[lo..hi])[j] == VScale(c, u)[lo + j] {}
  }

  lemma AddSlice(u: Vector, v: Vector, lo: nat, hi: nat)
    requires |u| == |v| && lo <= hi <= |u|
    ensures VAdd(u, v)[lo..hi] == VAdd(u[lo..hi], v[lo..hi])
  {
    forall j | 0 <= j < hi - lo ensures VAdd(u[lo..hi], v[lo..hi])[j] == VAdd(u, v)[lo + j] {}
  }

  // ------------------------------------------------------- inner products

  lemma DotSym(u: Vector, v: Vector)
    requires |u| == |v|
    ensures Dot(u, v) == Dot(v, u)
  {
    assert Mul(u, v) == Mul(v, u);
  }

  lemma DotAddLeft(u: Vector, w: Vector, v: Vector)
    requires |u| == |w| == |v|
    ensures Dot(VAdd(u, w), v) == Dot(u, v) + Dot(w, v)
  {
    forall i | 0 <= i < |u| ensures Mul(VAdd(u, w), v)[i] == VAdd(Mul(u, v), Mul(w, v))[i] {
      assert (u[i] + w[i]) * v[i] == u[i] * v[i] + w[i] * v[i];
    }
    assert Mul(VAdd(u, w), v) == VAdd(Mul(u, v), Mul(w, v));
    SumAdd(Mul(u, v), Mul(w, v));
  }

  lemma DotScaleLeft(c: real, u: Vector, v: Vector)
    requires |u| == |v|
    ensures Dot(VScale(c, u), v) == c * Dot(u, v)
  {
    forall i | 0 <= i < |u| ensures Mul(VScale(c, u), v)[i] == VScale(c, Mul(u, v))[i] {
      assert (c * u[i]) * v[i] == c * (u[i] * v[i]);
    }
    assert Mul(VScale(c, u), v) == VScale(c, Mul(u, v));
    SumScale(c, Mul(u, v));
  }

  lemma DotNegLeft(u: Vector, v: Vector)
    requires |u| == |v|
    ensures Dot(VNeg(u), v) == -Dot(u, v)
  {
    forall i | 0 <= i < |u| ensures Mul(VNeg(u), v)[i] == VNeg(Mul(u, v))[i] {
      assert (-u[i]) * v[i] == -(u[i] * v[i]);
    }
    assert Mul(VNeg(u), v) == VNeg(Mul(u, v));
    SumNeg(Mul(u, v));
  }

  lemma DotNegRight(u: Vector, v: Vector)
    requires |u| == |v|
    ensures Dot(u, VNeg(v)) == -Dot(u, v)
  {
    forall i | 0 <= i < |u| ensures Mul(u, VNeg(v))[i] == VNeg(Mul(u, v))[i] {
      assert u[i] * (-v[i]) == -(u[i] * v[i]);
    }
    assert Mul(u, VNeg(v)) == VNeg(Mul(u, v));
    SumNeg(Mul(u, v));
  }

  lemma DotZeroLeft(d: nat, v: Vector)
    requires |v| == d
    ensures Dot(Zeros(d), v) == 0.0
  {
    SumZero(Mul(Zeros(d), v));
  }

  /** Removing a constant c from u changes the inner product with v by c times the sum of v. */
  lemma DotShiftLeft(u: Vector, c: real, v: Vector)
    requires |u| == |v|
    ensures Dot(VShift(u, c), v) == Dot(u, v) - c * Sum(v)
  {
    MulShift(u, c, v);
    SumSub(Mul(u, v), VScale(c, v));
    SumScale(c, v);
  }

  lemma MulShift(u: Vector, c: real, v: Vector)
    requires |u| == |v|
    ensures Mul(VShift(u, c), v) == VSub(Mul(u, v), VScale(c, v))
  {
    forall i | 0 <= i < |u| ensures Mul(VShift(u, c), v)[i] == VSub(Mul(u, v), VScale(c, v))[i] {
      ShiftTimes(u[i], c, v[i]);
    }
  }

  /** The inner product splits over a cut of both vectors at the same place. */
  lemma DotSplit(u: Vector, v: Vector, k: nat)
    requires |u| == |v| && k <= |u|
    ensures Dot(u, v) == Dot(u[..k], v[..k]) + Dot(u[k..], v[k..])
  {
    forall i | 0 <= i < |u| ensures Mul(u, v)[i] == (Mul(u[..k], v[..k]) + Mul(u[k..], v[k..]))[i] {
      if i >= k { assert u[k..][i - k] == u[i] && v[k..][i - k] == v[i]; }
    }
    assert Mul(u, v) == Mul(u[..k], v[..k]) + Mul(u[k..], v[k..]);
    SumConcat(Mul(u[..k], v[..k]), Mul(u[k..], v[k..]));
  }

  lemma DotReverse(u: Vector, v: Vector)
    requires |u| == |v|
    ensures Dot(Reverse(u), Reverse(v)) == Dot(u, v)
  {
    forall i | 0 <= i < |u| ensures Mul(Reverse(u), Reverse(v))[i] == Reverse(Mul(u, v))[i] {}
    assert Mul(Reverse(u), Reverse(v)) == Reverse(Mul(u, v));
    SumReverse(Mul(u, v));
  }

  lemma ShiftTimes(a: real, c: real, b: real)
    ensures (a - c) * b == a * b - c * b
  {
  }

}
