/** `PoseidonParams::mat_inverse`: elimination without pivoting, on a matrix and an
    accumulated inverse, skipping the entries it relies on being zero. */
module Gauss {
  import opened Basics
  import opened Fields
  import opened Linear

  /** u - c w */
  function VSub<F>(K: Field<F>, u: Vec<F>, c: F, w: Vec<F>): Vec<F>
    requires |u| == |w|
  {
    VAdd(K, u, VScale(K, K.neg(c), w))
  }

  lemma VSubAt<F(!new)>(K: Field<F>, u: Vec<F>, c: F, w: Vec<F>, i: nat)
    requires IsField(K) && |u| == |w| && i < |u|
    ensures VSub(K, u, c, w)[i] == K.Sub(u[i], K.mul(w[i], c))
    ensures u[i] == w[i] == K.zero ==> VSub(K, u, c, w)[i] == K.zero
    ensures w[i] == K.zero ==> VSub(K, u, c, w)[i] == u[i]
    ensures u[i] == c && w[i] == K.one ==> VSub(K, u, c, w)[i] == K.zero
  {
    MulNeg(K, w[i], c);
    Comm(K, c, w[i]);
    Units(K, c);
    MulZero(K, K.neg(c));
    Units(K, u[i]);
  }

  /** Adds `el` times column `row` to column `j`: what undoes a row subtraction. */
  ghost function BumpColumn<F>(K: Field<F>, G: Matrix<F>, n: nat, j: nat, row: nat, el: F): Matrix<F>
    requires Shape(G, n, n) && j < n && row < n
  {
    seq(n, r requires 0 <= r < n => G[r][j := K.add(G[r][j], K.mul(el, G[r][row]))])
  }

  ghost function ScaleColumn<F>(K: Field<F>, G: Matrix<F>, n: nat, row: nat, el: F): Matrix<F>
    requires Shape(G, n, n) && row < n
  {
    seq(n, r requires 0 <= r < n => G[r][row := K.mul(G[r][row], el)])
  }

  /** `inv * mat == m`, and G undoes `inv`. */
  ghost predicate Factored<F>(K: Field<F>, mat: Matrix<F>, m: Matrix<F>, inv: Matrix<F>, G: Matrix<F>, n: nat) {
    && Shape(mat, n, n) && Shape(m, n, n) && Shape(inv, n, n)
    && (forall r :: 0 <= r < n ==> Comb(K, inv[r], mat, n) == m[r])
    && LeftInverse(K, G, inv, n)
  }

  lemma RowOpUndone<F(!new)>(K: Field<F>, inv: Matrix<F>, G: Matrix<F>, n: nat, row: nat, j: nat, el: F)
    requires IsField(K) && LeftInverse(K, G, inv, n) && row < n && j < n && j != row
    ensures LeftInverse(K, BumpColumn(K, G, n, j, row, el), inv[row := VSub(K, inv[row], el, inv[j])], n)
  {
    var inv' := inv[row := VSub(K, inv[row], el, inv[j])];
    var G' := BumpColumn(K, G, n, j, row, el);
    forall r | 0 <= r < n ensures Comb(K, G'[r], inv', n) == Unit(K, n, r) {
      forall c | 0 <= c < n ensures Comb(K, G'[r], inv', n)[c] == Comb(K, G[r], inv, n)[c] {
        var g, v := G[r], Column(inv, c);
        var x := K.mul(el, g[row]);
        var y := K.mul(K.neg(el), v[j]);
        assert Column(inv', c) == v[row := K.add(v[row], y)];
        DotBump(K, g, Column(inv', c), j, x);
        DotComm(K, g, Column(inv', c));
        DotBump(K, v, g, row, y);
        DotComm(K, v, g);
        // the two corrections cancel: y * g[row] + x * v[j] == 0
        var d := Dot(K, g, v);
        var z := K.mul(y, g[row]);
        CancelBumps(K, el, v[j], g[row]);
        Assoc(K, d, z, K.mul(x, v[j]));
        Units(K, d);
      }
    }
  }

  lemma CancelBumps<F(!new)>(K: Field<F>, el: F, a: F, g: F)
    requires IsField(K)
    ensures K.add(K.mul(K.mul(K.neg(el), a), g), K.mul(K.mul(el, g), a)) == K.zero
  {
    MulNeg(K, a, el);
    MulNeg(K, g, K.mul(el, a));
    Assoc(K, el, a, g);
    Comm(K, a, g);
    Assoc(K, el, g, a);
    Units(K, K.mul(K.mul(el, g), a));
  }

  lemma RowOp<F(!new)>(K: Field<F>, mat: Matrix<F>, m: Matrix<F>, inv: Matrix<F>, G: Matrix<F>,
                       n: nat, row: nat, j: nat, el: F)
    requires IsField(K) && Factored(K, mat, m, inv, G, n) && row < n && j < n && j != row
    ensures Factored(K, mat, m[row := VSub(K, m[row], el, m[j])], inv[row := VSub(K, inv[row], el, inv[j])],
                     BumpColumn(K, G, n, j, row, el), n)
  {
    var inv' := inv[row := VSub(K, inv[row], el, inv[j])];
    var m' := m[row := VSub(K, m[row], el, m[j])];
    RowOpUndone(K, inv, G, n, row, j, el);
    CombAdd(K, inv[row], VScale(K, K.neg(el), inv[j]), mat, n);
    CombScale(K, K.neg(el), inv[j], mat, n);
    forall r | 0 <= r < n ensures Comb(K, inv'[r], mat, n) == m'[r] {
    }
  }

  lemma ScaleOp<F(!new)>(K: Field<F>, mat: Matrix<F>, m: Matrix<F>, inv: Matrix<F>, G: Matrix<F>,
                         n: nat, row: nat, el: F)
    requires IsField(K) && Factored(K, mat, m, inv, G, n) && row < n && el != K.zero
    ensures Factored(K, mat, m[row := VScale(K, K.inv(el), m[row])], inv[row := VScale(K, K.inv(el), inv[row])],
                     ScaleColumn(K, G, n, row, el), n)
  {
    var e := K.inv(el);
    var inv', m' := inv[row := VScale(K, e, inv[row])], m[row := VScale(K, e, m[row])];
    var G' := ScaleColumn(K, G, n, row, el);
    CombScale(K, e, inv[row], mat, n);
    forall r | 0 <= r < n ensures Comb(K, inv'[r], mat, n) == m'[r] {
    }
    Inverse(K, el);
    forall r | 0 <= r < n ensures Comb(K, G'[r], inv', n) == Unit(K, n, r) {
      forall c | 0 <= c < n ensures Comb(K, G'[r], inv', n)[c] == Comb(K, G[r], inv, n)[c] {
        var g, v := G[r], Column(inv, c);
        assert Column(inv', c) == v[row := K.mul(e, v[row])];
        Assoc(K, g[row], el, K.mul(e, v[row]));
        Assoc(K, el, e, v[row]);
        Units(K, v[row]);
        DotReplace(K, g, v, row, K.mul(g[row], el), K.mul(e, v[row]));
      }
    }
  }

  // ----- shapes kept by the elimination -----

  ghost predicate LowerRow<F>(K: Field<F>, v: Vec<F>, r: nat) {
    forall c :: r < c < |v| ==> v[c] == K.zero
  }

  ghost predicate UnitUpperRow<F>(K: Field<F>, v: Vec<F>, r: nat) {
    r < |v| && v[r] == K.one && forall c :: 0 <= c < r ==> v[c] == K.zero
  }

  ghost predicate Lower<F>(K: Field<F>, A: Matrix<F>) {
    forall r :: 0 <= r < |A| ==> LowerRow(K, A[r], r)
  }

  /** The `for col` loop that subtracts row `j` from row `row`. */
  method SubtractRow<F(!new)>(K: Field<F>, mrow: Vec<F>, mj: Vec<F>, irow: Vec<F>, ij: Vec<F>,
                              el: F, j: nat, row: nat) returns (newM: Vec<F>, newInv: Vec<F>)
    requires IsField(K) && |mrow| == |mj| == |irow| == |ij| && j < row < |mrow|
    requires forall c :: 0 <= c < j ==> mrow[c] == K.zero && mj[c] == K.zero
    requires LowerRow(K, irow, row) && LowerRow(K, ij, row)
    ensures newM == VSub(K, mrow, el, mj)
    ensures newInv == VSub(K, irow, el, ij)
  {
    newM, newInv := mrow, irow;
    for col := 0 to |mrow|
      invariant |newM| == |newInv| == |mrow|
      invariant forall c :: 0 <= c < col ==> newM[c] == VSub(K, mrow, el, mj)[c]
      invariant forall c :: 0 <= c < col ==> newInv[c] == VSub(K, irow, el, ij)[c]
      invariant newM[col..] == mrow[col..] && newInv[col..] == irow[col..]
    {
      VSubAt(K, mrow, el, mj, col);
      VSubAt(K, irow, el, ij, col);
      assert newM[col] == newM[col..][0] == mrow[col];
      assert newInv[col] == newInv[col..][0] == irow[col];
      if col < j {
        newM := newM[col := K.zero];
      } else {
        newM := newM[col := K.Sub(newM[col], K.mul(mj[col], el))];
      }
      if col > row {
        newInv := newInv[col := K.zero];
      } else {
        newInv := newInv[col := K.Sub(newInv[col], K.mul(ij[col], el))];
      }
    }
  }

  /** The `for col` loop that makes the diagonal entry one. */
  method NormalizeRow<F(!new)>(K: Field<F>, mrow: Vec<F>, irow: Vec<F>, row: nat)
    returns (newM: Vec<F>, newInv: Vec<F>)
    requires IsField(K) && |mrow| == |irow| && row < |mrow| && mrow[row] != K.zero
    requires forall c :: 0 <= c < row ==> mrow[c] == K.zero
    requires LowerRow(K, irow, row)
    ensures newM == VScale(K, K.inv(mrow[row]), mrow)
    ensures newInv == VScale(K, K.inv(mrow[row]), irow)
    ensures UnitUpperRow(K, newM, row) && LowerRow(K, newInv, row)
  {
    var elInv := K.inv(mrow[row]);
    Inverse(K, mrow[row]);
    MulZero(K, elInv);
    newM, newInv := mrow, irow;
    for col := 0 to |mrow|
      invariant |newM| == |newInv| == |mrow|
      invariant forall c :: 0 <= c < col ==> newM[c] == K.mul(elInv, mrow[c])
      invariant forall c :: 0 <= c < col ==> newInv[c] == K.mul(elInv, irow[c])
      invariant newM[col..] == mrow[col..] && newInv[col..] == irow[col..]
    {
      assert newM[col] == newM[col..][0] == mrow[col];
      assert newInv[col] == newInv[col..][0] == irow[col];
      Comm(K, elInv, mrow[col]);
      Comm(K, elInv, irow[col]);
      if col < row {
        newInv := newInv[col := K.mul(newInv[col], elInv)];
      } else if col == row {
        newM := newM[col := K.one];
        newInv := newInv[col := K.mul(newInv[col], elInv)];
      } else {
        newM := newM[col := K.mul(newM[col], elInv)];
      }
    }
  }

  // ----- the leading blocks decide whether a pivot vanishes -----

  ghost function Lead<F>(A: Matrix<F>, k: nat): Matrix<F>
    requires k <= |A| && forall i :: 0 <= i < |A| ==> k <= |A[i]|
  {
    seq(k, i requires 0 <= i < k => A[i][..k])
  }

  /** `u` is a nonzero vector with `u * Lead(A, k) == 0`. */
  ghost predicate Kernel<F>(K: Field<F>, A: Matrix<F>, k: nat, u: Vec<F>) {
    && 1 <= k <= |A| && |u| == k && (forall i :: 0 <= i < |A| ==> k <= |A[i]|)
    && u != Zeros(K, k)
    && Comb(K, u, Lead(A, k), k) == Zeros(K, k)
  }

  ghost predicate SingularLead<F(!new)>(K: Field<F>, A: Matrix<F>, k: nat) {
    exists u :: Kernel(K, A, k, u)
  }

  /** Every leading square block of `A`, including `A`, is nonsingular. */
  ghost predicate NonsingularLeads<F(!new)>(K: Field<F>, A: Matrix<F>) {
    forall k :: 1 <= k <= |A| ==> !SingularLead(K, A, k)
  }

  /** Entries of `u` from `k` on are zero, so they do not contribute. */
  lemma {:induction false} DotTruncate<F(!new)>(K: Field<F>, u: Vec<F>, v: Vec<F>, k: nat)
    requires IsField(K) && |u| == |v| && k <= |u|
    requires forall i :: k <= i < |u| ==> u[i] == K.zero
    ensures Dot(K, u, v) == Dot(K, u[..k], v[..k])
  {
    if k == |u| {
      assert u[..k] == u && v[..k] == v;
    } else {
      var n := |u| - 1;
      DotTruncate(K, u[..n], v[..n], k);
      assert u[..n][..k] == u[..k] && v[..n][..k] == v[..k];
      MulZero(K, v[n]);
      Units(K, Dot(K, u[..n], v[..n]));
    }
  }

  lemma CombLead<F(!new)>(K: Field<F>, u: Vec<F>, A: Matrix<F>, n: nat, k: nat)
    requires IsField(K) && Shape(A, n, n) && |u| == n && k <= n
    requires forall i :: k <= i < n ==> u[i] == K.zero
    ensures Comb(K, u[..k], Lead(A, k), k) == Comb(K, u, A, n)[..k]
  {
    forall c | 0 <= c < k ensures Comb(K, u[..k], Lead(A, k), k)[c] == Comb(K, u, A, n)[c] {
      DotTruncate(K, u, Column(A, c), k);
      assert Column(A, c)[..k] == Column(Lead(A, k), c);
    }
  }

  lemma ZeroPivotIsSingular<F(!new)>(K: Field<F>, mat: Matrix<F>, n: nat, u: Vec<F>, row: nat)
    requires IsField(K) && Shape(mat, n, n) && |u| == n && row < n
    requires LowerRow(K, u, row) && u[row] == K.one
    requires forall c :: 0 <= c <= row ==> Comb(K, u, mat, n)[c] == K.zero
    ensures SingularLead(K, mat, row + 1)
    ensures !NonsingularLeads(K, mat)
  {
    CombLead(K, u, mat, n, row + 1);
    assert u[..row + 1][row] != Zeros(K, row + 1)[row];
    assert Kernel(K, mat, row + 1, u[..row + 1]);
  }

  /** A dot product with a single possibly nonzero term, whose factor is one. */
  lemma {:induction false} DotSingle<F(!new)>(K: Field<F>, u: Vec<F>, v: Vec<F>, c: nat)
    requires IsField(K) && |u| == |v| && c < |u| && v[c] == K.one
    requires forall i :: 0 <= i < c ==> u[i] == K.zero
    requires forall i :: c < i < |u| ==> v[i] == K.zero
    ensures Dot(K, u, v) == u[c]
  {
    var n := |u| - 1;
    if c < n {
      DotSingle(K, u[..n], v[..n], c);
      MulZero(K, u[n]);
      Units(K, u[c]);
    } else {
      assert u[..n] == Zeros(K, n);
      DotZeros(K, v[..n]);
      Units(K, u[c]);
    }
  }

  /** Forward substitution: only zero is sent to zero by a unit upper triangle. */
  lemma {:induction false} UpperKernel<F(!new)>(K: Field<F>, y: Vec<F>, U: Matrix<F>, n: nat, k: nat, c: nat)
    requires IsField(K) && Shape(U, n, n) && |y| == n && c <= k <= n
    requires forall r :: 0 <= r < n ==> UnitUpperRow(K, U[r], r)
    requires forall i :: 0 <= i < k ==> Comb(K, y, U, n)[i] == K.zero
    ensures forall i :: 0 <= i < c ==> y[i] == K.zero
  {
    if c > 0 {
      UpperKernel(K, y, U, n, k, c - 1);
      DotSingle(K, y, Column(U, c - 1), c - 1);
      assert Comb(K, y, U, n)[c - 1] == K.zero;
    }
  }

  lemma {:induction false} DotAllZero<F(!new)>(K: Field<F>, u: Vec<F>, v: Vec<F>)
    requires IsField(K) && |u| == |v|
    requires forall i :: 0 <= i < |u| ==> u[i] == K.zero || v[i] == K.zero
    ensures Dot(K, u, v) == K.zero
  {
    if |u| > 0 {
      var n := |u| - 1;
      DotAllZero(K, u[..n], v[..n]);
      MulZero(K, u[n]);
      MulZero(K, v[n]);
      Units(K, K.zero);
    }
  }

  /** Once every pivot is nonzero, no leading block has a kernel. */
  lemma PivotsMeanNonsingular<F(!new)>(K: Field<F>, mat: Matrix<F>, U: Matrix<F>, E: Matrix<F>, G: Matrix<F>,
                                       n: nat, k: nat, u: Vec<F>)
    requires IsField(K) && Factored(K, mat, U, E, G, n) && Lower(K, G)
    requires forall r :: 0 <= r < n ==> UnitUpperRow(K, U[r], r)
    requires k <= n && |u| == k && Comb(K, u, Lead(mat, k), k) == Zeros(K, k)
    ensures u == Zeros(K, k)
  {
    var w := u + Zeros(K, n - k);
    assert w[..k] == u;
    CombLead(K, w, mat, n, k);
    var y := Comb(K, w, G, n);
    forall i | k <= i < n ensures y[i] == K.zero {
      DotAllZero(K, w, Column(G, i));
    }
    // y E == w, and y U == w mat
    LeftInverseProduct(K, G, E, n);
    CombAssoc(K, w, G, E, n);
    CombIdentity(K, w);
    assert Comb(K, y, E, n) == w;
    assert MatMul(K, E, mat, n) == U;
    CombAssoc(K, y, E, mat, n);
    assert Comb(K, y, U, n) == Comb(K, w, mat, n);
    forall i | 0 <= i < k ensures Comb(K, y, U, n)[i] == K.zero {
      assert Comb(K, w, mat, n)[..k][i] == K.zero;
    }
    UpperKernel(K, y, U, n, k, k);
    forall c | 0 <= c < n ensures w[c] == K.zero {
      DotAllZero(K, y, Column(E, c));
    }
  }

  // ----- the two passes -----

  /** First pass: rows above `row` are already unit upper triangular. */
  ghost predicate ForwardInv<F>(K: Field<F>, mat: Matrix<F>, m: Matrix<F>, inv: Matrix<F>, G: Matrix<F>,
                                n: nat, row: nat) {
    && Factored(K, mat, m, inv, G, n)
    && Lower(K, inv) && Lower(K, G)
    && row <= n
    && (forall r :: 0 <= r < row ==> UnitUpperRow(K, m[r], r))
    && (forall r :: row <= r < n ==> inv[r] == Unit(K, n, r))
  }

  lemma ForwardStart<F(!new)>(K: Field<F>, mat: Matrix<F>, n: nat)
    requires IsField(K) && Shape(mat, n, n)
    ensures ForwardInv(K, mat, mat, Identity(K, n), Identity(K, n), n, 0)
  {
    var I := Identity(K, n);
    forall r | 0 <= r < n ensures Comb(K, I[r], mat, n) == mat[r] && Comb(K, I[r], I, n) == Unit(K, n, r) {
      CombUnit(K, mat, n, r);
      CombIdentity(K, I[r]);
    }
  }

  /** Inside the first pass: columns below `j` of row `row` are cleared. */
  ghost predicate ReduceInv<F>(K: Field<F>, mat: Matrix<F>, m: Matrix<F>, inv: Matrix<F>, G: Matrix<F>,
                               n: nat, row: nat, j: nat) {
    && Factored(K, mat, m, inv, G, n)
    && Lower(K, inv) && Lower(K, G)
    && j <= row < n
    && (forall r :: 0 <= r < row ==> UnitUpperRow(K, m[r], r))
    && (forall r :: row < r < n ==> inv[r] == Unit(K, n, r))
    && (forall c :: 0 <= c < j ==> m[row][c] == K.zero)
    && inv[row][row] == K.one
  }

  lemma ReduceStep<F(!new)>(K: Field<F>, mat: Matrix<F>, m: Matrix<F>, inv: Matrix<F>, G: Matrix<F>,
                            n: nat, row: nat, j: nat)
    requires IsField(K) && j < row && ReduceInv(K, mat, m, inv, G, n, row, j)
    ensures ReduceInv(K, mat, m[row := VSub(K, m[row], m[row][j], m[j])],
                      inv[row := VSub(K, inv[row], m[row][j], inv[j])],
                      BumpColumn(K, G, n, j, row, m[row][j]), n, row, j + 1)
  {
    var el := m[row][j];
    var mrow, irow := VSub(K, m[row], el, m[j]), VSub(K, inv[row], el, inv[j]);
    forall c | 0 <= c < n
      ensures c <= j ==> mrow[c] == K.zero
      ensures row < c ==> irow[c] == K.zero
      ensures row == c ==> irow[c] == K.one
    {
      VSubAt(K, m[row], el, m[j], c);
      VSubAt(K, inv[row], el, inv[j], c);
    }
    RowOp(K, mat, m, inv, G, n, row, j, el);
    BumpKeepsLower(K, G, n, j, row, el);
  }

  /** Subtracts all earlier rows from row `row`. */
  method ReduceRow<F(!new)>(K: Field<F>, ghost mat: Matrix<F>, m0: Matrix<F>, inv0: Matrix<F>, ghost G0: Matrix<F>,
                            n: nat, row: nat)
    returns (m: Matrix<F>, inv: Matrix<F>, ghost G: Matrix<F>)
    requires IsField(K) && row < n && ForwardInv(K, mat, m0, inv0, G0, n, row)
    ensures ReduceInv(K, mat, m, inv, G, n, row, row)
  {
    m, inv, G := m0, inv0, G0;
    for j := 0 to row
      invariant ReduceInv(K, mat, m, inv, G, n, row, j)
    {
      var el := m[row][j];
      var mrow, irow := SubtractRow(K, m[row], m[j], inv[row], inv[j], el, j, row);
      ReduceStep(K, mat, m, inv, G, n, row, j);
      m, inv, G := m[row := mrow], inv[row := irow], BumpColumn(K, G, n, j, row, el);
    }
  }

  lemma BumpKeepsLower<F(!new)>(K: Field<F>, G: Matrix<F>, n: nat, j: nat, row: nat, el: F)
    requires IsField(K) && Shape(G, n, n) && j < row < n && Lower(K, G)
    ensures Lower(K, BumpColumn(K, G, n, j, row, el))
  {
    MulZero(K, el);
    Units(K, K.zero);
  }

  lemma NormalizeStep<F(!new)>(K: Field<F>, mat: Matrix<F>, m: Matrix<F>, inv: Matrix<F>, G: Matrix<F>, n: nat,
                               row: nat)
    requires IsField(K) && ReduceInv(K, mat, m, inv, G, n, row, row) && m[row][row] != K.zero
    ensures ForwardInv(K, mat, m[row := VScale(K, K.inv(m[row][row]), m[row])],
                       inv[row := VScale(K, K.inv(m[row][row]), inv[row])],
                       ScaleColumn(K, G, n, row, m[row][row]), n, row + 1)
  {
    var el := m[row][row];
    Inverse(K, el);
    MulZero(K, el);
    MulZero(K, K.inv(el));
    ScaleOp(K, mat, m, inv, G, n, row, el);
  }

  method Forward<F(!new, ==)>(K: Field<F>, mat: Matrix<F>)
    returns (r: Option<(Matrix<F>, Matrix<F>)>, ghost G: Matrix<F>)
    requires IsField(K) && Shape(mat, |mat|, |mat|)
    ensures r.Some? ==> ForwardInv(K, mat, r.value.0, r.value.1, G, |mat|, |mat|)
    ensures r.Some? <==> NonsingularLeads(K, mat)
  {
    var n := |mat|;
    var m, inv := mat, Identity(K, n);
    G := Identity(K, n);
    ForwardStart(K, mat, n);
    for row := 0 to n
      invariant ForwardInv(K, mat, m, inv, G, n, row)
    {
      m, inv, G := ReduceRow(K, mat, m, inv, G, n, row);
      if m[row][row] == K.zero {
        ZeroPivotIsSingular(K, mat, n, inv[row], row);
        return None, G;
      }
      var mrow, irow := NormalizeRow(K, m[row], inv[row], row);
      NormalizeStep(K, mat, m, inv, G, n, row);
      G := ScaleColumn(K, G, n, row, m[row][row]);
      m, inv := m[row := mrow], inv[row := irow];
    }
    forall k: nat, u | k <= n && |u| == k && Comb(K, u, Lead(mat, k), k) == Zeros(K, k) ensures u == Zeros(K, k) {
      PivotsMeanNonsingular(K, mat, m, inv, G, n, k, u);
    }
    r := Some((m, inv));
  }

  /** The `for col` loop of the second pass. */
  method SubtractInverseRow<F(!new)>(K: Field<F>, irow: Vec<F>, ij: Vec<F>, el: F) returns (newInv: Vec<F>)
    requires IsField(K) && |irow| == |ij|
    ensures newInv == VSub(K, irow, el, ij)
  {
    newInv := irow;
    for col := 0 to |irow|
      invariant |newInv| == |irow|
      invariant forall c :: 0 <= c < col ==> newInv[c] == VSub(K, irow, el, ij)[c]
      invariant newInv[col..] == irow[col..]
    {
      VSubAt(K, irow, el, ij, col);
      assert newInv[col] == newInv[col..][0] == irow[col];
      newInv := newInv[col := K.Sub(newInv[col], K.mul(ij[col], el))];
    }
  }

  /** Second pass for one row, given that all later rows of the
      reduced matrix are rows of the identity. `mg` follows what the debug build
      stores; the release build leaves `m` alone and reads the same multipliers. */
  method ClearRow<F(!new)>(K: Field<F>, ghost mat: Matrix<F>, m: Matrix<F>, ghost mg0: Matrix<F>, inv0: Matrix<F>,
                           ghost G0: Matrix<F>, n: nat, row: nat)
    returns (inv: Matrix<F>, ghost mg: Matrix<F>, ghost G: Matrix<F>)
    requires IsField(K) && row < n && Shape(m, n, n) && Factored(K, mat, mg0, inv0, G0, n)
    requires UnitUpperRow(K, m[row], row) && mg0[row] == m[row]
    requires forall r :: row < r < n ==> mg0[r] == Unit(K, n, r)
    ensures Factored(K, mat, mg, inv, G, n)
    ensures mg == mg0[row := Unit(K, n, row)]
  {
    inv, mg, G := inv0, mg0, G0;
    var j := n;
    while j > row + 1
      invariant row + 1 <= j <= n
      invariant Factored(K, mat, mg, inv, G, n)
      invariant mg == mg0[row := mg[row]]
      invariant forall c :: 0 <= c < j ==> mg[row][c] == m[row][c]
      invariant forall c :: j <= c < n ==> mg[row][c] == K.zero
    {
      j := j - 1;
      var el := m[row][j];
      RowOp(K, mat, mg, inv, G, n, row, j, el);
      var irow := SubtractInverseRow(K, inv[row], inv[j], el);
      forall c | 0 <= c < n ensures VSub(K, mg[row], el, mg[j])[c] == if c == j then K.zero else mg[row][c] {
        VSubAt(K, mg[row], el, mg[j], c);
      }
      mg := mg[row := VSub(K, mg[row], el, mg[j])];
      G := BumpColumn(K, G, n, j, row, el);
      inv := inv[row := irow];
    }
    assert mg[row] == Unit(K, n, row);
  }

  /** `None` stands for the panic of `inverse().unwrap()` on a zero pivot. */
  method MatInverse<F(!new, ==)>(K: Field<F>, mat: Matrix<F>) returns (r: Option<Matrix<F>>)
    requires IsField(K) && Shape(mat, |mat|, |mat|)
    ensures r.Some? <==> NonsingularLeads(K, mat)
    ensures r.Some? ==> TwoSidedInverse(K, r.value, mat, |mat|)
  {
    var n := |mat|;
    var fwd, G := Forward(K, mat);
    if fwd.None? {
      return None;
    }
    var (m, inv) := fwd.value;
    ghost var mg := m;
    var row := n;
    while row > 0
      invariant 0 <= row <= n
      invariant Factored(K, mat, mg, inv, G, n)
      invariant forall r :: 0 <= r < row ==> mg[r] == m[r]
      invariant forall r :: row <= r < n ==> mg[r] == Unit(K, n, r)
    {
      row := row - 1;
      inv, mg, G := ClearRow(K, mat, m, mg, inv, G, n, row);
    }
    TwoSided(K, G, inv, mat, n);
    r := Some(inv);
  }
}
