/** Vectors and matrices over a field, in row-vector form. `Comb(K, u, A, n)` is the
    row vector `u * A`; `MatVec` is the column form used by the permutation. */
module Linear {
  import opened Fields

  type Vec<F> = seq<F>
  type Matrix<F> = seq<seq<F>>

  ghost predicate Shape<F>(A: Matrix<F>, rows: nat, cols: nat) {
    |A| == rows && forall i :: 0 <= i < rows ==> |A[i]| == cols
  }

  function VAdd<F>(K: Field<F>, u: Vec<F>, v: Vec<F>): Vec<F>
    requires |u| == |v|
  {
    seq(|u|, i requires 0 <= i < |u| => K.add(u[i], v[i]))
  }

  function VScale<F>(K: Field<F>, c: F, u: Vec<F>): Vec<F> {
    seq(|u|, i requires 0 <= i < |u| => K.mul(c, u[i]))
  }

  function Zeros<F>(K: Field<F>, n: nat): Vec<F> {
    seq(n, i => K.zero)
  }

  /** Row `r` of the identity of size `n`. */
  function Unit<F>(K: Field<F>, n: nat, r: nat): Vec<F> {
    seq(n, i => if i == r then K.one else K.zero)
  }

  function Dot<F>(K: Field<F>, u: Vec<F>, v: Vec<F>): F
    requires |u| == |v|
  {
    if |u| == 0 then K.zero
    else
      var n := |u| - 1;
      K.add(Dot(K, u[..n], v[..n]), K.mul(u[n], v[n]))
  }

  function MatVec<F>(K: Field<F>, A: Matrix<F>, v: Vec<F>): (r: Vec<F>)
    requires forall i :: 0 <= i < |A| ==> |A[i]| == |v|
  {
    seq(|A|, i requires 0 <= i < |A| => Dot(K, A[i], v))
  }

  function Column<F>(A: Matrix<F>, c: nat): Vec<F>
    requires forall i :: 0 <= i < |A| ==> c < |A[i]|
  {
    seq(|A|, i requires 0 <= i < |A| => A[i][c])
  }

  function Comb<F>(K: Field<F>, u: Vec<F>, A: Matrix<F>, n: nat): Vec<F>
    requires |u| == |A| && forall i :: 0 <= i < |A| ==> |A[i]| == n
  {
    seq(n, c requires 0 <= c < n => Dot(K, u, Column(A, c)))
  }

  function MatMul<F>(K: Field<F>, A: Matrix<F>, B: Matrix<F>, n: nat): Matrix<F>
    requires forall i :: 0 <= i < |A| ==> |A[i]| == |B|
    requires forall i :: 0 <= i < |B| ==> |B[i]| == n
  {
    seq(|A|, i requires 0 <= i < |A| => Comb(K, A[i], B, n))
  }

  function Transpose<F>(A: Matrix<F>, cols: nat): Matrix<F>
    requires forall i :: 0 <= i < |A| ==> |A[i]| == cols
  {
    seq(cols, c requires 0 <= c < cols => Column(A, c))
  }

  function Identity<F>(K: Field<F>, n: nat): Matrix<F> {
    seq(n, r requires 0 <= r < n => Unit(K, n, r))
  }

  // ----- dot products -----

  /** One term more of a sum being accumulated. */
  lemma DotOneMore<F>(K: Field<F>, u: Vec<F>, v: Vec<F>, k: nat)
    requires k < |u| == |v|
    ensures Dot(K, u[..k + 1], v[..k + 1]) == K.add(Dot(K, u[..k], v[..k]), K.mul(u[k], v[k]))
  {
    assert u[..k + 1][..k] == u[..k] && v[..k + 1][..k] == v[..k];
  }

  lemma {:induction false} DotAdd<F(!new)>(K: Field<F>, u: Vec<F>, w: Vec<F>, v: Vec<F>)
    requires IsField(K) && |u| == |w| == |v|
    ensures Dot(K, VAdd(K, u, w), v) == K.add(Dot(K, u, v), Dot(K, w, v))
  {
    if |u| == 0 {
      Units(K, K.zero);
    } else {
      var n := |u| - 1;
      DotAdd(K, u[..n], w[..n], v[..n]);
      assert VAdd(K, u, w)[..n] == VAdd(K, u[..n], w[..n]);
      Distrib(K, v[n], u[n], w[n]);
      AddShuffle(K, Dot(K, u[..n], v[..n]), Dot(K, w[..n], v[..n]), K.mul(u[n], v[n]), K.mul(w[n], v[n]));
    }
  }

  lemma {:induction false} DotScale<F(!new)>(K: Field<F>, c: F, u: Vec<F>, v: Vec<F>)
    requires IsField(K) && |u| == |v|
    ensures Dot(K, VScale(K, c, u), v) == K.mul(c, Dot(K, u, v))
  {
    if |u| == 0 {
      MulZero(K, c);
    } else {
      var n := |u| - 1;
      DotScale(K, c, u[..n], v[..n]);
      assert VScale(K, c, u)[..n] == VScale(K, c, u[..n]);
      Assoc(K, c, u[n], v[n]);
      Distrib(K, c, Dot(K, u[..n], v[..n]), K.mul(u[n], v[n]));
    }
  }

  lemma {:induction false} DotComm<F(!new)>(K: Field<F>, u: Vec<F>, v: Vec<F>)
    requires IsField(K) && |u| == |v|
    ensures Dot(K, u, v) == Dot(K, v, u)
  {
    if |u| > 0 {
      var n := |u| - 1;
      DotComm(K, u[..n], v[..n]);
      Comm(K, u[n], v[n]);
    }
  }

  lemma {:induction false} DotZeros<F(!new)>(K: Field<F>, v: Vec<F>)
    requires IsField(K)
    ensures Dot(K, Zeros(K, |v|), v) == K.zero
  {
    if |v| > 0 {
      var n := |v| - 1;
      DotZeros(K, v[..n]);
      assert Zeros(K, |v|)[..n] == Zeros(K, n);
      MulZero(K, v[n]);
      Units(K, K.zero);
    }
  }

  lemma {:induction false} DotUnit<F(!new)>(K: Field<F>, v: Vec<F>, r: nat)
    requires IsField(K) && r < |v|
    ensures Dot(K, Unit(K, |v|, r), v) == v[r]
  {
    var n := |v| - 1;
    if r < n {
      DotUnit(K, v[..n], r);
      assert Unit(K, |v|, r)[..n] == Unit(K, n, r);
      MulZero(K, v[n]);
      Units(K, v[r]);
    } else {
      DotZeros(K, v[..n]);
      assert Unit(K, |v|, r)[..n] == Zeros(K, n);
      Units(K, v[r]);
    }
  }

  /** Changing one entry of `u` by `x` adds `x` times the matching entry of `v`. */
  lemma DotBump<F(!new)>(K: Field<F>, u: Vec<F>, v: Vec<F>, i: nat, x: F)
    requires IsField(K) && |u| == |v| && i < |u|
    ensures Dot(K, u[i := K.add(u[i], x)], v) == K.add(Dot(K, u, v), K.mul(x, v[i]))
  {
    var e := VScale(K, x, Unit(K, |u|, i));
    Units(K, x);
    MulZero(K, x);
    forall k | 0 <= k < |u| ensures VAdd(K, u, e)[k] == u[i := K.add(u[i], x)][k] {
      Units(K, u[k]);
    }
    assert VAdd(K, u, e) == u[i := K.add(u[i], x)];
    DotAdd(K, u, e, v);
    DotScale(K, x, Unit(K, |u|, i), v);
    DotUnit(K, v, i);
  }

  lemma {:induction false} DotReplace<F(!new)>(K: Field<F>, u: Vec<F>, v: Vec<F>, i: nat, x: F, y: F)
    requires |u| == |v| && i < |u|
    requires K.mul(x, y) == K.mul(u[i], v[i])
    ensures Dot(K, u[i := x], v[i := y]) == Dot(K, u, v)
  {
    var n := |u| - 1;
    if i < n {
      DotReplace(K, u[..n], v[..n], i, x, y);
      assert u[i := x][..n] == u[..n][i := x];
      assert v[i := y][..n] == v[..n][i := y];
    } else {
      assert u[i := x][..n] == u[..n];
      assert v[i := y][..n] == v[..n];
    }
  }

  /** (u A) . w == u . (A w) */
  lemma {:induction false} Adjoint<F(!new)>(K: Field<F>, u: Vec<F>, A: Matrix<F>, w: Vec<F>)
    requires IsField(K) && Shape(A, |u|, |w|)
    ensures Dot(K, Comb(K, u, A, |w|), w) == Dot(K, u, MatVec(K, A, w))
  {
    if |u| == 0 {
      assert Comb(K, u, A, |w|) == Zeros(K, |w|);
      DotZeros(K, w);
    } else {
      var n := |u| - 1;
      var C, t := Comb(K, u[..n], A[..n], |w|), VScale(K, u[n], A[n]);
      forall c | 0 <= c < |w| ensures Comb(K, u, A, |w|)[c] == VAdd(K, C, t)[c] {
        assert Column(A, c)[..n] == Column(A[..n], c);
      }
      assert Comb(K, u, A, |w|) == VAdd(K, C, t);
      DotAdd(K, C, t, w);
      DotScale(K, u[n], A[n], w);
      Adjoint(K, u[..n], A[..n], w);
      assert MatVec(K, A, w)[..n] == MatVec(K, A[..n], w);
    }
  }

  // ----- row vectors times matrices -----

  lemma CombAdd<F(!new)>(K: Field<F>, u: Vec<F>, w: Vec<F>, A: Matrix<F>, n: nat)
    requires IsField(K) && |u| == |w| && Shape(A, |u|, n)
    ensures Comb(K, VAdd(K, u, w), A, n) == VAdd(K, Comb(K, u, A, n), Comb(K, w, A, n))
  {
    forall c | 0 <= c < n
      ensures Comb(K, VAdd(K, u, w), A, n)[c] == VAdd(K, Comb(K, u, A, n), Comb(K, w, A, n))[c]
    {
      DotAdd(K, u, w, Column(A, c));
    }
  }

  lemma CombScale<F(!new)>(K: Field<F>, x: F, u: Vec<F>, A: Matrix<F>, n: nat)
    requires IsField(K) && Shape(A, |u|, n)
    ensures Comb(K, VScale(K, x, u), A, n) == VScale(K, x, Comb(K, u, A, n))
  {
    forall c | 0 <= c < n
      ensures Comb(K, VScale(K, x, u), A, n)[c] == VScale(K, x, Comb(K, u, A, n))[c]
    {
      DotScale(K, x, u, Column(A, c));
    }
  }

  lemma CombUnit<F(!new)>(K: Field<F>, A: Matrix<F>, n: nat, r: nat)
    requires IsField(K) && Shape(A, |A|, n) && r < |A|
    ensures Comb(K, Unit(K, |A|, r), A, n) == A[r]
  {
    forall c | 0 <= c < n ensures Comb(K, Unit(K, |A|, r), A, n)[c] == A[r][c] {
      DotUnit(K, Column(A, c), r);
    }
  }

  /** (u A) B == u (A B) */
  lemma CombAssoc<F(!new)>(K: Field<F>, u: Vec<F>, A: Matrix<F>, B: Matrix<F>, n: nat)
    requires IsField(K) && Shape(A, |u|, |B|) && Shape(B, |B|, n)
    ensures Comb(K, Comb(K, u, A, |B|), B, n) == Comb(K, u, MatMul(K, A, B, n), n)
  {
    forall c | 0 <= c < n
      ensures Comb(K, Comb(K, u, A, |B|), B, n)[c] == Comb(K, u, MatMul(K, A, B, n), n)[c]
    {
      Adjoint(K, u, A, Column(B, c));
      assert Column(MatMul(K, A, B, n), c) == MatVec(K, A, Column(B, c));
    }
  }

  lemma CombIdentity<F(!new)>(K: Field<F>, u: Vec<F>)
    requires IsField(K)
    ensures Comb(K, u, Identity(K, |u|), |u|) == u
  {
    forall c | 0 <= c < |u| ensures Comb(K, u, Identity(K, |u|), |u|)[c] == u[c] {
      assert Column(Identity(K, |u|), c) == Unit(K, |u|, c);
      DotComm(K, u, Unit(K, |u|, c));
      DotUnit(K, u, c);
    }
  }

  /** The column form with `A` is the row form with the transpose of `A`. */
  lemma MatVecTranspose<F(!new)>(K: Field<F>, A: Matrix<F>, v: Vec<F>)
    requires IsField(K) && Shape(A, |A|, |v|)
    ensures MatVec(K, A, v) == Comb(K, v, Transpose(A, |v|), |A|)
  {
    forall i | 0 <= i < |A| ensures MatVec(K, A, v)[i] == Comb(K, v, Transpose(A, |v|), |A|)[i] {
      assert Column(Transpose(A, |v|), i) == A[i];
      DotComm(K, A[i], v);
    }
  }

  // ----- inverses -----

  ghost predicate LeftInverse<F>(K: Field<F>, B: Matrix<F>, A: Matrix<F>, n: nat) {
    Shape(A, n, n) && Shape(B, n, n) && forall r :: 0 <= r < n ==> Comb(K, B[r], A, n) == Unit(K, n, r)
  }

  ghost predicate TwoSidedInverse<F>(K: Field<F>, B: Matrix<F>, A: Matrix<F>, n: nat) {
    LeftInverse(K, B, A, n) && LeftInverse(K, A, B, n)
  }

  lemma LeftInverseProduct<F(!new)>(K: Field<F>, B: Matrix<F>, A: Matrix<F>, n: nat)
    requires LeftInverse(K, B, A, n)
    ensures MatMul(K, B, A, n) == Identity(K, n)
  {
  }

  /** A left inverse that itself has a left inverse is two-sided. */
  lemma TwoSided<F(!new)>(K: Field<F>, G: Matrix<F>, B: Matrix<F>, A: Matrix<F>, n: nat)
    requires IsField(K) && LeftInverse(K, G, B, n) && LeftInverse(K, B, A, n)
    ensures TwoSidedInverse(K, B, A, n)
  {
    LeftInverseProduct(K, B, A, n);
    forall r | 0 <= r < n ensures G[r] == A[r] {
      CombAssoc(K, G[r], B, A, n);
      CombIdentity(K, G[r]);
      CombUnit(K, A, n, r);
    }
    assert G == A;
  }

  /** With B a right inverse of A, applying B and then A gives the vector back. */
  lemma SolveCancels<F(!new)>(K: Field<F>, A: Matrix<F>, B: Matrix<F>, w: Vec<F>)
    requires IsField(K) && LeftInverse(K, A, B, |w|)
    ensures MatVec(K, A, MatVec(K, B, w)) == w
  {
    forall r | 0 <= r < |w| ensures MatVec(K, A, MatVec(K, B, w))[r] == w[r] {
      Adjoint(K, A[r], B, w);
      DotUnit(K, w, r);
    }
  }
}
