/** Dot products and matrices over the field, as far as coding and decoding need them. */
module Matrix {
  import opened Gf256

  type Vec = seq<Byte>
  type Mat = seq<Vec>

  /** The sum of the first `n` products. */
  function Dot(u: Vec, v: Vec, n: nat): Byte
    requires n <= |u| && n <= |v|
  {
    if n == 0 then ZERO else Xor(Dot(u, v, n - 1), GfMul(u[n - 1], v[n - 1]))
  }

  predicate IsMat(a: Mat, rows: nat, cols: nat) {
    |a| == rows && forall i :: 0 <= i < rows ==> |a[i]| == cols
  }

  function Col(a: Mat, i: nat): Vec
    requires forall j :: 0 <= j < |a| ==> i < |a[j]|
  {
    seq(|a|, j requires 0 <= j < |a| => a[j][i])
  }

  /** The row vector `r` times the first `n` rows of `a`. */
  function RowTimes(r: Vec, a: Mat, n: nat, k: nat): (v: Vec)
    requires n <= |r| && n <= |a| && IsMat(a, |a|, k)
    ensures |v| == k
  {
    seq(k, i requires 0 <= i < k => Dot(r, Col(a, i), n))
  }

  /** The matrix `a` times the column vector `d`. */
  function Times(a: Mat, d: Vec): (v: Vec)
    requires IsMat(a, |a|, |d|)
    ensures |v| == |a|
  {
    seq(|a|, j requires 0 <= j < |a| => Dot(a[j], d, |d|))
  }

  function Unit(k: nat, e: nat): (v: Vec)
    ensures |v| == k
  {
    seq(k, i => if i == e then ONE else ZERO)
  }

  /** `d` is a left inverse of `b`. */
  predicate LeftInverse(d: Mat, b: Mat, k: nat) {
    IsMat(d, k, k) && IsMat(b, k, k) && forall e :: 0 <= e < k ==> RowTimes(d[e], b, k, k) == Unit(k, e)
  }

  // ---------------------------------------------------------------- linearity

  lemma {:induction false} DotComm(u: Vec, v: Vec, n: nat)
    requires n <= |u| && n <= |v|
    ensures Dot(u, v, n) == Dot(v, u, n)
  {
    hide Xor;
    hide GfMul;
    if n > 0 {
      DotComm(u, v, n - 1);
      MulComm(u[n - 1], v[n - 1]);
    }
  }

  /** `w` is `u` plus `c` times `v`. */
  predicate Combines(w: Vec, u: Vec, c: Byte, v: Vec, n: nat) {
    n <= |w| && n <= |u| && n <= |v| && forall i :: 0 <= i < n ==> w[i] == Xor(u[i], GfMul(c, v[i]))
  }

  lemma {:induction false} DotLinear(w: Vec, u: Vec, c: Byte, v: Vec, d: Vec, n: nat)
    requires Combines(w, u, c, v, n) && n <= |d|
    ensures Dot(w, d, n) == Xor(Dot(u, d, n), GfMul(c, Dot(v, d, n)))
  {
    hide Xor;
    hide GfMul;
    if n == 0 {
      MulZero(c);
      XorZero(ZERO);
    } else {
      DotLinear(w, u, c, v, d, n - 1);
      var a, b, x := u[n - 1], v[n - 1], d[n - 1];
      MulXorLeft(a, GfMul(c, b), x);
      MulAssoc(c, b, x);
      MulXorRight(c, Dot(v, d, n - 1), GfMul(b, x));
      Xor4(Dot(u, d, n - 1), GfMul(c, Dot(v, d, n - 1)), GfMul(a, x), GfMul(c, GfMul(b, x)));
    }
  }

  lemma {:induction false} DotZero(u: Vec, d: Vec, n: nat)
    requires n <= |u| && n <= |d| && forall i :: 0 <= i < n ==> u[i] == ZERO
    ensures Dot(u, d, n) == ZERO
  {
    hide Xor;
    hide GfMul;
    if n > 0 {
      DotZero(u, d, n - 1);
      MulZero(d[n - 1]);
      XorZero(ZERO);
    }
  }

  lemma {:induction false} DotUnit(k: nat, e: nat, d: Vec, n: nat)
    requires n <= k && n <= |d|
    ensures Dot(Unit(k, e), d, n) == if e < n then d[e] else ZERO
  {
    hide Xor;
    hide GfMul;
    if n > 0 {
      DotUnit(k, e, d, n - 1);
      OneTimes(d[n - 1]);
      MulZero(d[n - 1]);
      XorZero(ZERO);
      if e < n - 1 { XorZero(d[e]); }
      if e == n - 1 { XorZero(d[e]); }
    }
  }

  /** (r * A) * d == r * (A * d). */
  lemma {:induction false} RowTimesAssoc(r: Vec, a: Mat, d: Vec, n: nat)
    requires n <= |r| && n <= |a| && IsMat(a, |a|, |d|)
    ensures Dot(RowTimes(r, a, n, |d|), d, |d|) == Dot(r, Times(a, d), n)
  {
    hide Xor;
    hide GfMul;
    var k := |d|;
    if n == 0 {
      DotZero(RowTimes(r, a, 0, k), d, k);
    } else {
      RowTimesAssoc(r, a, d, n - 1);
      DotLinear(RowTimes(r, a, n, k), RowTimes(r, a, n - 1, k), r[n - 1], a[n - 1], d, k);
    }
  }

  /** An inverted row undoes the multiplication. */
  lemma InverseDecodes(inv: Mat, b: Mat, k: nat, e: nat, d: Vec)
    requires LeftInverse(inv, b, k) && e < k && |d| == k
    ensures Dot(inv[e], Times(b, d), k) == d[e]
  {
    RowTimesAssoc(inv[e], b, d, k);
    DotUnit(k, e, d, k);
  }

  /** (r * Inv) * B == r, whatever the row r: this is how a row of the encode matrix is carried over
      to the surviving fragments. */
  lemma RowThroughInverse(r: Vec, inv: Mat, b: Mat, k: nat)
    requires LeftInverse(inv, b, k) && |r| == k
    ensures RowTimes(RowTimes(r, inv, k, k), b, k, k) == r
  {
    hide Dot;
    hide Xor;
    hide GfMul;
    forall i | 0 <= i < k ensures Dot(RowTimes(r, inv, k, k), Col(b, i), k) == r[i] {
      var c := Col(b, i);
      RowTimesAssoc(r, inv, c, k);
      forall j | 0 <= j < k ensures Times(inv, c)[j] == Unit(k, i)[j] {
        assert Times(inv, c)[j] == RowTimes(inv[j], b, k, k)[i] == Unit(k, j)[i];
      }
      assert Times(inv, c) == Unit(k, i);
      DotComm(r, Unit(k, i), k);
      DotUnit(k, i, r, k);
    }
  }
}
