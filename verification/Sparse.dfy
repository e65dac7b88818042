/** The matrix half of the Poseidon rewrite: the MDS layer of every partial round is
    split into a block-diagonal factor, pushed to the front of the rounds, and a
    sparse factor, kept in place. Matrices act on row vectors here, which is the form
    `equivalent_matrices` computes in (it starts from the transposed MDS matrix). */
module Sparse {
  import opened Basics
  import opened Fields
  import opened Linear

  /** `A` without its first row and column. */
  function Inner<F>(A: Matrix<F>, t: nat): Matrix<F>
    requires t >= 1 && Shape(A, t, t)
    ensures Shape(Inner(A, t), t - 1, t - 1)
  {
    seq(t - 1, i requires 0 <= i < t - 1 => A[i + 1][1..])
  }

  function BlockRow<F>(K: Field<F>, A: Matrix<F>, t: nat, i: nat): (r: Vec<F>)
    requires i < t && Shape(A, t, t)
    ensures |r| == t
  {
    if i == 0 then Unit(K, t, 0) else [K.zero] + A[i][1..]
  }

  /** `A` with its first row and column replaced by those of the identity. */
  function Block<F>(K: Field<F>, A: Matrix<F>, t: nat): Matrix<F>
    requires t >= 1 && Shape(A, t, t)
    ensures Shape(Block(K, A, t), t, t)
  {
    seq(t, i requires 0 <= i < t => BlockRow(K, A, t, i))
  }

  /** First row `[a00] + v`, first column `[a00] + w`, identity elsewhere. */
  function SparseMatrix<F>(K: Field<F>, a00: F, v: Vec<F>, w: Vec<F>): Matrix<F>
    requires |v| == |w|
    ensures Shape(SparseMatrix(K, a00, v, w), |v| + 1, |v| + 1)
  {
    seq(|v| + 1, i requires 0 <= i < |v| + 1 => if i == 0 then [a00] + v else [w[i - 1]] + Unit(K, |v|, i - 1))
  }

  /** What `cheap_matmul` computes, in O(t) multiplications. */
  function CheapProduct<F>(K: Field<F>, a00: F, v: Vec<F>, w: Vec<F>, x: Vec<F>): Vec<F>
    requires |v| == |w| && |x| == |v| + 1
  {
    [K.add(K.mul(a00, x[0]), Dot(K, w, x[1..]))] +
    seq(|v|, i requires 0 <= i < |v| => K.add(K.mul(x[0], v[i]), x[i + 1]))
  }

  lemma {:induction false} DotHead<F(!new)>(K: Field<F>, u: Vec<F>, v: Vec<F>)
    requires IsField(K) && |u| == |v| > 0
    ensures Dot(K, u, v) == K.add(K.mul(u[0], v[0]), Dot(K, u[1..], v[1..]))
  {
    var n := |u| - 1;
    if n == 0 {
      Units(K, K.mul(u[0], v[0]));
    } else {
      DotHead(K, u[..n], v[..n]);
      assert u[..n][1..] == u[1..][..n - 1] && v[..n][1..] == v[1..][..n - 1];
      Assoc(K, K.mul(u[0], v[0]), Dot(K, u[1..][..n - 1], v[1..][..n - 1]), K.mul(u[n], v[n]));
    }
  }

  lemma SparseColumn<F(!new)>(K: Field<F>, a00: F, v: Vec<F>, w: Vec<F>, c: nat)
    requires |v| == |w| && c <= |v|
    ensures Column(SparseMatrix(K, a00, v, w), c) ==
            if c == 0 then [a00] + w else [v[c - 1]] + Unit(K, |v|, c - 1)
  {
    var col := Column(SparseMatrix(K, a00, v, w), c);
    forall i | 0 <= i <= |v|
      ensures col[i] == (if c == 0 then [a00] + w else [v[c - 1]] + Unit(K, |v|, c - 1))[i]
    {
    }
  }

  lemma CheapHead<F(!new)>(K: Field<F>, a00: F, w: Vec<F>, x: Vec<F>)
    requires IsField(K) && |x| == |w| + 1
    ensures Dot(K, x, [a00] + w) == K.add(K.mul(a00, x[0]), Dot(K, w, x[1..]))
  {
    var u := [a00] + w;
    assert u[1..] == w;
    DotHead(K, x, u);
    Comm(K, a00, x[0]);
    DotComm(K, w, x[1..]);
  }

  lemma CheapTail<F(!new)>(K: Field<F>, n: nat, e: F, x: Vec<F>, c: nat)
    requires IsField(K) && |x| == n + 1 && c < n
    ensures Dot(K, x, [e] + Unit(K, n, c)) == K.add(K.mul(x[0], e), x[c + 1])
  {
    var unit := Unit(K, n, c);
    var u := [e] + unit;
    assert u[1..] == unit;
    DotHead(K, x, u);
    DotComm(K, x[1..], unit);
    DotUnit(K, x[1..], c);
  }

  lemma CheapEntry<F(!new)>(K: Field<F>, a00: F, v: Vec<F>, w: Vec<F>, x: Vec<F>, c: nat)
    requires IsField(K) && |v| == |w| && |x| == |v| + 1 && c < |x|
    ensures CheapProduct(K, a00, v, w, x)[c] == Dot(K, x, Column(SparseMatrix(K, a00, v, w), c))
  {
    SparseColumn(K, a00, v, w, c);
    if c == 0 {
      CheapHead(K, a00, w, x);
    } else {
      CheapTail(K, |v|, v[c - 1], x, c - 1);
    }
  }

  lemma CheapIsSparse<F(!new)>(K: Field<F>, a00: F, v: Vec<F>, w: Vec<F>, x: Vec<F>)
    requires IsField(K) && |v| == |w| && |x| == |v| + 1
    ensures CheapProduct(K, a00, v, w, x) == Comb(K, x, SparseMatrix(K, a00, v, w), |x|)
  {
    forall c | 0 <= c < |x|
      ensures CheapProduct(K, a00, v, w, x)[c] == Comb(K, x, SparseMatrix(K, a00, v, w), |x|)[c] {
      CheapEntry(K, a00, v, w, x, c);
    }
  }

  lemma BlockColumn<F(!new)>(K: Field<F>, A: Matrix<F>, t: nat, c: nat)
    requires t >= 1 && Shape(A, t, t) && c < t
    ensures Column(Block(K, A, t), c) ==
            if c == 0 then Unit(K, t, 0) else [K.zero] + Column(Inner(A, t), c - 1)
  {
    var col := Column(Block(K, A, t), c);
    forall i | 0 <= i < t
      ensures col[i] == (if c == 0 then Unit(K, t, 0) else [K.zero] + Column(Inner(A, t), c - 1))[i]
    {
      assert col[i] == BlockRow(K, A, t, i)[c];
    }
  }

  lemma BlockApply<F(!new)>(K: Field<F>, A: Matrix<F>, t: nat, x: Vec<F>)
    requires IsField(K) && t >= 1 && Shape(A, t, t) && |x| == t
    ensures Comb(K, x, Block(K, A, t), t) == [x[0]] + Comb(K, x[1..], Inner(A, t), t - 1)
  {
    var y := Comb(K, x, Block(K, A, t), t);
    BlockColumn(K, A, t, 0);
    DotComm(K, x, Unit(K, t, 0));
    DotUnit(K, x, 0);
    forall c | 1 <= c < t ensures y[c] == Comb(K, x[1..], Inner(A, t), t - 1)[c - 1] {
      BlockColumn(K, A, t, c);
      var col := Column(Inner(A, t), c - 1);
      DotHead(K, x, [K.zero] + col);
      assert ([K.zero] + col)[1..] == col;
      MulZero(K, x[0]);
      Units(K, Dot(K, x[1..], col));
    }
  }

  /** The block factor keeps the first element, and commutes past a change of it. */
  lemma BlockCommutes<F(!new)>(K: Field<F>, A: Matrix<F>, t: nat, x: Vec<F>, a: F)
    requires IsField(K) && t >= 1 && Shape(A, t, t) && |x| == t
    ensures Comb(K, x, Block(K, A, t), t)[0] == x[0]
    ensures Comb(K, x[0 := a], Block(K, A, t), t) == Comb(K, x, Block(K, A, t), t)[0 := a]
  {
    BlockApply(K, A, t, x);
    BlockApply(K, A, t, x[0 := a]);
    assert x[0 := a][1..] == x[1..];
  }

  /** The first row of the factorisation. */
  lemma FactorHead<F(!new)>(K: Field<F>, A: Matrix<F>, t: nat, v: Vec<F>, w: Vec<F>)
    requires IsField(K) && t >= 1 && Shape(A, t, t) && |w| == t - 1 && v == A[0][1..]
    ensures Comb(K, Block(K, A, t)[0], SparseMatrix(K, A[0][0], v, w), t) == A[0]
  {
    CombUnit(K, SparseMatrix(K, A[0][0], v, w), t, 0);
  }

  /** Any other row. */
  lemma FactorRow<F(!new)>(K: Field<F>, A: Matrix<F>, t: nat, v: Vec<F>, w: Vec<F>, r: nat)
    requires IsField(K) && t >= 1 && Shape(A, t, t) && |w| == t - 1 && 1 <= r < t && v == A[0][1..]
    requires MatVec(K, Inner(A, t), w) == Column(A, 0)[1..]
    ensures Comb(K, Block(K, A, t)[r], SparseMatrix(K, A[0][0], v, w), t) == A[r]
  {
    var x := Block(K, A, t)[r];
    CheapIsSparse(K, A[0][0], v, w, x);
    assert x[1..] == Inner(A, t)[r - 1];
    DotComm(K, w, x[1..]);
    assert Dot(K, x[1..], w) == MatVec(K, Inner(A, t), w)[r - 1] == A[r][0];
    CheapOnZero(K, A[0][0], v, w, x, A[r]);
  }

  lemma CheapOnZero<F(!new)>(K: Field<F>, a00: F, v: Vec<F>, w: Vec<F>, x: Vec<F>, row: Vec<F>)
    requires IsField(K) && |v| == |w| && |x| == |row| == |v| + 1 && x[0] == K.zero
    requires Dot(K, w, x[1..]) == row[0] && x[1..] == row[1..]
    ensures CheapProduct(K, a00, v, w, x) == row
  {
    MulZero(K, a00);
    Units(K, row[0]);
    forall c | 1 <= c < |row| ensures CheapProduct(K, a00, v, w, x)[c] == row[c] {
      MulZero(K, v[c - 1]);
      Units(K, row[c]);
      assert x[c] == x[1..][c - 1] == row[1..][c - 1];
    }
  }

  /** The factorisation at one step: `A == Block(A) * SparseMatrix(...)`. */
  lemma Factorisation<F(!new)>(K: Field<F>, A: Matrix<F>, t: nat, v: Vec<F>, w: Vec<F>)
    requires IsField(K) && t >= 1 && Shape(A, t, t) && |w| == t - 1
    requires v == A[0][1..]
    requires MatVec(K, Inner(A, t), w) == Column(A, 0)[1..]
    ensures MatMul(K, Block(K, A, t), SparseMatrix(K, A[0][0], v, w), t) == A
  {
    forall r | 0 <= r < t ensures MatMul(K, Block(K, A, t), SparseMatrix(K, A[0][0], v, w), t)[r] == A[r] {
      if r == 0 {
        FactorHead(K, A, t, v, w);
      } else {
        FactorRow(K, A, t, v, w, r);
      }
    }
  }

  /** The sparse product after the block factor is the product with `A` itself. */
  lemma SparseStep<F(!new)>(K: Field<F>, A: Matrix<F>, t: nat, v: Vec<F>, w: Vec<F>, y: Vec<F>, a: F)
    requires IsField(K) && t >= 1 && Shape(A, t, t) && |w| == t - 1 && |y| == t
    requires v == A[0][1..]
    requires MatVec(K, Inner(A, t), w) == Column(A, 0)[1..]
    ensures CheapProduct(K, A[0][0], v, w, Comb(K, y, Block(K, A, t), t)[0 := a]) == Comb(K, y[0 := a], A, t)
  {
    BlockCommutes(K, A, t, y, a);
    CheapIsSparse(K, A[0][0], v, w, Comb(K, y[0 := a], Block(K, A, t), t));
    CombAssoc(K, y[0 := a], Block(K, A, t), SparseMatrix(K, A[0][0], v, w), t);
    Factorisation(K, A, t, v, w);
  }

  /** `m_mul` at the start of step `k` of `equivalent_matrices`, from `N`, the
      transposed MDS matrix. */
  ghost function Stage<F>(K: Field<F>, N: Matrix<F>, t: nat, k: nat): (A: Matrix<F>)
    requires t >= 1 && Shape(N, t, t)
    ensures Shape(A, t, t)
  {
    if k == 0 then N else MatMul(K, N, Block(K, Stage(K, N, t, k - 1), t), t)
  }

  lemma StageCorner<F(!new)>(K: Field<F>, N: Matrix<F>, t: nat, k: nat)
    requires IsField(K) && t >= 1 && Shape(N, t, t)
    ensures Stage(K, N, t, k)[0][0] == N[0][0]
  {
    if k > 0 {
      BlockApply(K, Stage(K, N, t, k - 1), t, N[0]);
    }
  }

  ghost function MatPower<F>(K: Field<F>, A: Matrix<F>, n: nat, k: nat): (P: Matrix<F>)
    requires Shape(A, n, n) && k >= 1
    ensures Shape(P, n, n)
  {
    if k == 1 then A else MatMul(K, A, MatPower(K, A, n, k - 1), n)
  }

  /** A block factor on the right acts on the inner matrix alone. */
  lemma InnerOfProduct<F(!new)>(K: Field<F>, N: Matrix<F>, A: Matrix<F>, t: nat)
    requires IsField(K) && t >= 1 && Shape(N, t, t) && Shape(A, t, t)
    ensures Inner(MatMul(K, N, Block(K, A, t), t), t) == MatMul(K, Inner(N, t), Inner(A, t), t - 1)
  {
    forall i | 0 <= i < t - 1
      ensures Same(Inner(MatMul(K, N, Block(K, A, t), t), t)[i], MatMul(K, Inner(N, t), Inner(A, t), t - 1)[i]) {
      InnerRow(K, N[i + 1], A, t);
    }
  }

  lemma InnerRow<F(!new)>(K: Field<F>, x: Vec<F>, A: Matrix<F>, t: nat)
    requires IsField(K) && t >= 1 && |x| == t && Shape(A, t, t)
    ensures Same(Comb(K, x, Block(K, A, t), t)[1..], Comb(K, x[1..], Inner(A, t), t - 1))
  {
    BlockApply(K, A, t, x);
    assert Comb(K, x, Block(K, A, t), t)[1..] == Comb(K, x[1..], Inner(A, t), t - 1);
  }

  /** The inner matrices met on the way are the powers of the first. */
  lemma {:induction false} InnerStage<F(!new)>(K: Field<F>, N: Matrix<F>, t: nat, k: nat)
    requires IsField(K) && t >= 1 && Shape(N, t, t)
    ensures Inner(Stage(K, N, t, k), t) == MatPower(K, Inner(N, t), t - 1, k + 1)
  {
    if k > 0 {
      InnerStage(K, N, t, k - 1);
      InnerOfProduct(K, N, Stage(K, N, t, k - 1), t);
    }
  }

  /** `v` and `w` solve the factorisation of the matrix at step `k`. */
  ghost predicate FactorAt<F>(K: Field<F>, N: Matrix<F>, t: nat, k: nat, v: Vec<F>, w: Vec<F>)
    requires t >= 1 && Shape(N, t, t)
  {
    && v == Stage(K, N, t, k)[0][1..]
    && |w| == t - 1
    && MatVec(K, Inner(Stage(K, N, t, k), t), w) == Column(Stage(K, N, t, k), 0)[1..]
  }

  ghost predicate SparseFactors<F>(K: Field<F>, N: Matrix<F>, t: nat, R: nat, v: Matrix<F>, w: Matrix<F>) {
    && t >= 1 && Shape(N, t, t) && Shape(v, R, t - 1) && Shape(w, R, t - 1)
    && forall k {:trigger FactorAt(K, N, t, k, v[k], w[k])} :: 0 <= k < R ==> FactorAt(K, N, t, k, v[k], w[k])
  }

  /** What happens to the first element before the `i`-th multiplication. */
  type Heads<!F> = (nat, F) -> F

  /** `i` rounds of: change the first element, multiply by the full matrix. */
  ghost function DenseRun<F>(K: Field<F>, N: Matrix<F>, t: nat, heads: Heads<F>, x: Vec<F>, i: nat): (y: Vec<F>)
    requires t >= 1 && Shape(N, t, t) && |x| == t
    ensures |y| == t
  {
    if i == 0 then x
    else
      var y := DenseRun(K, N, t, heads, x, i - 1);
      Comb(K, y[0 := heads(i - 1, y[0])], N, t)
  }

  /** The same rounds with the sparse products, last stage first. */
  ghost function SparseRun<F>(K: Field<F>, a00: F, v: Matrix<F>, w: Matrix<F>, t: nat, R: nat,
                              heads: Heads<F>, x: Vec<F>, i: nat): (y: Vec<F>)
    requires t >= 1 && Shape(v, R, t - 1) && Shape(w, R, t - 1) && |x| == t && i <= R
    ensures |y| == t
  {
    if i == 0 then x
    else
      var y := SparseRun(K, a00, v, w, t, R, heads, x, i - 1);
      CheapProduct(K, a00, v[R - i], w[R - i], y[0 := heads(i - 1, y[0])])
  }

  /** The dense state times the block factor still ahead, with `k` rounds to go. */
  ghost function Ahead<F>(K: Field<F>, N: Matrix<F>, t: nat, y: Vec<F>, k: nat): (z: Vec<F>)
    requires t >= 1 && Shape(N, t, t) && |y| == t
    ensures |z| == t
  {
    if k == 0 then y else Comb(K, y, Block(K, Stage(K, N, t, k - 1), t), t)
  }

  lemma StageStep<F(!new)>(K: Field<F>, N: Matrix<F>, t: nat, R: nat, v: Matrix<F>, w: Matrix<F>,
                           k: nat, y: Vec<F>, a: F)
    requires IsField(K) && SparseFactors(K, N, t, R, v, w) && k < R && |y| == t
    ensures Ahead(K, N, t, y, k + 1)[0] == y[0]
    ensures CheapProduct(K, N[0][0], v[k], w[k], Ahead(K, N, t, y, k + 1)[0 := a])
            == Ahead(K, N, t, Comb(K, y[0 := a], N, t), k)
  {
    StageCorner(K, N, t, k);
    assert FactorAt(K, N, t, k, v[k], w[k]);
    BlockCommutes(K, Stage(K, N, t, k), t, y, a);
    SparseStep(K, Stage(K, N, t, k), t, v[k], w[k], y, a);
    if k > 0 {
      CombAssoc(K, y[0 := a], N, Block(K, Stage(K, N, t, k - 1), t), t);
    }
  }

  /** One sparse round and one dense round, from states that correspond. */
  lemma SparseTurn<F(!new)>(K: Field<F>, N: Matrix<F>, t: nat, R: nat, v: Matrix<F>, w: Matrix<F>,
                            k: nat, y: Vec<F>, r: Vec<F>, a: F)
    requires IsField(K) && SparseFactors(K, N, t, R, v, w) && k < R && |y| == |r| == t
    requires Same(r, Ahead(K, N, t, y, k + 1))
    ensures Same(r[0], y[0])
    ensures Same(CheapProduct(K, N[0][0], v[k], w[k], r[0 := a]), Ahead(K, N, t, Comb(K, y[0 := a], N, t), k))
  {
    StageStep(K, N, t, R, v, w, k, y, a);
  }

  lemma DenseRunTurn<F>(K: Field<F>, N: Matrix<F>, t: nat, heads: Heads<F>, x: Vec<F>, i: nat, y: Vec<F>)
    requires t >= 1 && Shape(N, t, t) && |x| == |y| == t && Same(y, DenseRun(K, N, t, heads, x, i))
    ensures Same(Comb(K, y[0 := heads(i, y[0])], N, t), DenseRun(K, N, t, heads, x, i + 1))
  {
  }

  lemma SparseRunTurn<F>(K: Field<F>, a00: F, v: Matrix<F>, w: Matrix<F>, t: nat, R: nat, heads: Heads<F>, x: Vec<F>,
                         i: nat, r: Vec<F>)
    requires t >= 1 && Shape(v, R, t - 1) && Shape(w, R, t - 1) && |x| == |r| == t && i < R
    requires Same(r, SparseRun(K, a00, v, w, t, R, heads, x, i))
    ensures Same(CheapProduct(K, a00, v[R - i - 1], w[R - i - 1], r[0 := heads(i, r[0])]),
                 SparseRun(K, a00, v, w, t, R, heads, x, i + 1))
  {
  }

  /** After `i` rounds: the dense state `y`, and the sparse one `r` with the block ahead. */
  ghost predicate Tracking<F>(K: Field<F>, N: Matrix<F>, t: nat, R: nat, v: Matrix<F>, w: Matrix<F>,
                              heads: Heads<F>, x: Vec<F>, z: Vec<F>, i: nat, y: Vec<F>, r: Vec<F>)
    requires t >= 1 && Shape(N, t, t) && Shape(v, R, t - 1) && Shape(w, R, t - 1) && |x| == |z| == t && i <= R
  {
    && |y| == |r| == t && Same(y, DenseRun(K, N, t, heads, x, i))
    && Same(r, SparseRun(K, N[0][0], v, w, t, R, heads, z, i)) && Same(r, Ahead(K, N, t, y, R - i))
  }

  lemma TrackingStart<F>(K: Field<F>, N: Matrix<F>, t: nat, R: nat, v: Matrix<F>, w: Matrix<F>, heads: Heads<F>,
                         x: Vec<F>, z: Vec<F>)
    requires t >= 1 && Shape(N, t, t) && Shape(v, R, t - 1) && Shape(w, R, t - 1) && |x| == |z| == t
    requires Same(z, Ahead(K, N, t, x, R))
    ensures Tracking(K, N, t, R, v, w, heads, x, z, 0, x, z)
  {
  }

  lemma TrackingTurn<F(!new)>(K: Field<F>, N: Matrix<F>, t: nat, R: nat, v: Matrix<F>, w: Matrix<F>,
                              heads: Heads<F>, x: Vec<F>, z: Vec<F>, i: nat, y: Vec<F>, r: Vec<F>)
    returns (y': Vec<F>, r': Vec<F>)
    requires IsField(K) && SparseFactors(K, N, t, R, v, w) && |x| == |z| == t && i < R
    requires Tracking(K, N, t, R, v, w, heads, x, z, i, y, r)
    ensures Tracking(K, N, t, R, v, w, heads, x, z, i + 1, y', r')
  {
    var k, a := R - i - 1, heads(i, y[0]);
    SparseTurn(K, N, t, R, v, w, k, y, r, a);
    DenseRunTurn(K, N, t, heads, x, i, y);
    SparseRunTurn(K, N[0][0], v, w, t, R, heads, z, i, r);
    y', r' := Comb(K, y[0 := a], N, t), CheapProduct(K, N[0][0], v[k], w[k], r[0 := a]);
  }

  /** After `i` sparse rounds the state is the dense one times the block still ahead. */
  lemma {:induction false} SparseRunTracks<F(!new)>(K: Field<F>, N: Matrix<F>, t: nat, R: nat, v: Matrix<F>,
                                                    w: Matrix<F>, heads: Heads<F>, x: Vec<F>, z: Vec<F>, i: nat)
    returns (y: Vec<F>, r: Vec<F>)
    requires IsField(K) && SparseFactors(K, N, t, R, v, w) && |x| == |z| == t && i <= R
    requires Same(z, Ahead(K, N, t, x, R))
    ensures Tracking(K, N, t, R, v, w, heads, x, z, i, y, r)
  {
    if i == 0 {
      y, r := x, z;
      TrackingStart(K, N, t, R, v, w, heads, x, z);
    } else {
      var y0, r0 := SparseRunTracks(K, N, t, R, v, w, heads, x, z, i - 1);
      y, r := TrackingTurn(K, N, t, R, v, w, heads, x, z, i - 1, y0, r0);
    }
  }

  /** One block multiplication followed by all the sparse rounds is the dense run,
      whatever happens to the first element in between. */
  lemma SparseRunIsDense<F(!new)>(K: Field<F>, N: Matrix<F>, t: nat, R: nat, v: Matrix<F>, w: Matrix<F>,
                                  heads: Heads<F>, x: Vec<F>)
    requires IsField(K) && SparseFactors(K, N, t, R, v, w) && |x| == t && R >= 1
    ensures Same(SparseRun(K, N[0][0], v, w, t, R, heads, Comb(K, x, Block(K, Stage(K, N, t, R - 1), t), t), R),
                 DenseRun(K, N, t, heads, x, R))
  {
    var y, r := SparseRunTracks(K, N, t, R, v, w, heads, x, Ahead(K, N, t, x, R), R);
  }
}
