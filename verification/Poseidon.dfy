/** The optimised Poseidon permutation against the textbook rounds. */
module Poseidon {
  import opened Basics
  import opened Fields
  import opened Linear
  import opened Gauss
  import opened Sparse

  // ----- the textbook permutation (parameters.sage, `perm`) -----

  function Pow<F>(K: Field<F>, x: F, d: nat): F {
    if d == 0 then K.one else K.mul(Pow(K, x, d - 1), x)
  }

  function SboxAll<F>(K: Field<F>, d: nat, s: Vec<F>): Vec<F> {
    seq(|s|, i requires 0 <= i < |s| => Pow(K, s[i], d))
  }

  /** State after full rounds `lo..hi`: add constants, S-box everywhere, MDS. */
  ghost function FullRounds<F>(K: Field<F>, d: nat, mds: Matrix<F>, rc: Matrix<F>, t: nat, s: Vec<F>, lo: nat,
                               hi: nat): (r: Vec<F>)
    requires lo <= hi <= |rc| && Shape(mds, t, t) && Shape(rc, |rc|, t) && |s| == t
    ensures |r| == t
  {
    if lo == hi then s
    else MatVec(K, mds, SboxAll(K, d, VAdd(K, FullRounds(K, d, mds, rc, t, s, lo, hi - 1), rc[hi - 1])))
  }

  /** State after partial rounds `lo..hi`: the S-box hits the first element only. */
  ghost function PartialRounds<F>(K: Field<F>, d: nat, mds: Matrix<F>, rc: Matrix<F>, t: nat, s: Vec<F>, lo: nat,
                                  hi: nat): (r: Vec<F>)
    requires lo <= hi <= |rc| && t >= 1 && Shape(mds, t, t) && Shape(rc, |rc|, t) && |s| == t
    ensures |r| == t
  {
    if lo == hi then s
    else
      var x := VAdd(K, PartialRounds(K, d, mds, rc, t, s, lo, hi - 1), rc[hi - 1]);
      MatVec(K, mds, x[0 := Pow(K, x[0], d)])
  }

  ghost function Textbook<F>(K: Field<F>, d: nat, mds: Matrix<F>, rc: Matrix<F>, t: nat, rf: nat, rp: nat,
                             s: Vec<F>): (r: Vec<F>)
    requires |rc| == 2 * rf + rp && t >= 1 && Shape(mds, t, t) && Shape(rc, |rc|, t) && |s| == t
    ensures |r| == t
  {
    var a := FullRounds(K, d, mds, rc, t, s, 0, rf);
    var b := PartialRounds(K, d, mds, rc, t, a, rf, rf + rp);
    FullRounds(K, d, mds, rc, t, b, rf + rp, |rc|)
  }

  // ----- moving the round constants -----

  /** `c` plus the tail of `u`: the first element keeps its own constant. */
  function AddTail<F>(K: Field<F>, c: Vec<F>, u: Vec<F>): Vec<F>
    requires |c| == |u|
  {
    seq(|c|, i requires 0 <= i < |c| => if i == 0 then c[0] else K.add(c[i], u[i]))
  }

  /** The vector `tmp` when round `i` of `R` partial rounds has been reached, counting
      back from the last one: everything from later rounds except first elements. */
  ghost function Moved<F>(K: Field<F>, inv: Matrix<F>, rc: Matrix<F>, t: nat, rf: nat, R: nat, i: nat): (r: Vec<F>)
    requires Shape(inv, t, t) && Shape(rc, |rc|, t) && i < R && rf + R <= |rc|
    ensures |r| == t
    decreases R - i
  {
    if i == R - 1 then rc[rf + i]
    else AddTail(K, rc[rf + i], MatVec(K, inv, Moved(K, inv, rc, t, rf, R, i + 1)))
  }

  /** What `equivalent_round_constants` must return: all of the first vector, and one
      element for each later partial round. */
  ghost predicate MovedConstants<F>(K: Field<F>, mds: Matrix<F>, rc: Matrix<F>, t: nat, rf: nat, R: nat,
                                    inv: Matrix<F>, opt: Matrix<F>) {
    && t >= 1 && R >= 1 && rf + R <= |rc| && Shape(rc, |rc|, t) && TwoSidedInverse(K, inv, mds, t)
    && |opt| == R && opt[0] == Moved(K, inv, rc, t, rf, R, 0)
    && forall i {:trigger opt[i]} :: 1 <= i < R ==> opt[i] == [MatVec(K, inv, Moved(K, inv, rc, t, rf, R, i))[0]]
  }

  /** The first element between two linear layers of the optimised rounds. */
  function HeadOf<F>(K: Field<F>, d: nat, opt: Matrix<F>, i: nat, x: F): F {
    if i + 1 < |opt| && |opt[i + 1]| > 0 then K.add(Pow(K, x, d), opt[i + 1][0]) else Pow(K, x, d)
  }

  ghost predicate IsHeads<F(!new)>(heads: Heads<F>, K: Field<F>, d: nat, opt: Matrix<F>) {
    forall j: nat, x: F :: heads(j, x) == HeadOf(K, d, opt, j, x)
  }

  /** One round: adding the constants before the S-box, or the moved ones around it. */
  lemma MoveStep<F(!new)>(K: Field<F>, d: nat, mds: Matrix<F>, inv: Matrix<F>, t: nat, s: Vec<F>, c: Vec<F>,
                          next: Vec<F>)
    requires IsField(K) && t >= 1 && TwoSidedInverse(K, inv, mds, t) && |s| == |c| == |next| == t
    ensures var u := MatVec(K, inv, next);
            var x, y := VAdd(K, s, AddTail(K, c, u)), VAdd(K, s, c);
            MatVec(K, mds, x[0 := K.add(Pow(K, x[0], d), u[0])])
            == VAdd(K, MatVec(K, mds, y[0 := Pow(K, y[0], d)]), next)
  {
    var u := MatVec(K, inv, next);
    var x, y := VAdd(K, s, AddTail(K, c, u)), VAdd(K, s, c);
    var z := y[0 := Pow(K, y[0], d)];
    var x' := x[0 := K.add(Pow(K, x[0], d), u[0])];
    forall i | 0 <= i < t ensures x'[i] == VAdd(K, z, u)[i] {
      Assoc(K, s[i], c[i], u[i]);
    }
    assert x' == VAdd(K, z, u);
    MatVecAdd(K, mds, z, u);
    SolveCancels(K, mds, inv, next);
  }

  lemma MatVecAdd<F(!new)>(K: Field<F>, A: Matrix<F>, u: Vec<F>, v: Vec<F>)
    requires IsField(K) && |u| == |v| && Shape(A, |A|, |u|)
    ensures MatVec(K, A, VAdd(K, u, v)) == VAdd(K, MatVec(K, A, u), MatVec(K, A, v))
  {
    forall i | 0 <= i < |A|
      ensures MatVec(K, A, VAdd(K, u, v))[i] == VAdd(K, MatVec(K, A, u), MatVec(K, A, v))[i]
    {
      DotComm(K, A[i], VAdd(K, u, v));
      DotAdd(K, u, v, A[i]);
      DotComm(K, u, A[i]);
      DotComm(K, v, A[i]);
    }
  }

  /** `y` plus the constants already pulled back to the start of round `i`. */
  ghost function WithMoved<F>(K: Field<F>, inv: Matrix<F>, rc: Matrix<F>, t: nat, rf: nat, R: nat, y: Vec<F>,
                              i: nat): (r: Vec<F>)
    requires Shape(inv, t, t) && Shape(rc, |rc|, t) && i <= R && rf + R <= |rc| && |y| == t
    ensures |r| == t
  {
    if i == R then y else VAdd(K, y, Moved(K, inv, rc, t, rf, R, i))
  }

  lemma MovedRound<F(!new)>(K: Field<F>, d: nat, mds: Matrix<F>, rc: Matrix<F>, t: nat, rf: nat, R: nat,
                            inv: Matrix<F>, opt: Matrix<F>, y: Vec<F>, i: nat)
    requires IsField(K) && MovedConstants(K, mds, rc, t, rf, R, inv, opt) && |y| == t && i < R
    ensures var x, z := WithMoved(K, inv, rc, t, rf, R, y, i), VAdd(K, y, rc[rf + i]);
            MatVec(K, mds, x[0 := HeadOf(K, d, opt, i, x[0])])
            == WithMoved(K, inv, rc, t, rf, R, MatVec(K, mds, z[0 := Pow(K, z[0], d)]), i + 1)
  {
    if i + 1 < R {
      MoveStep(K, d, mds, inv, t, y, rc[rf + i], Moved(K, inv, rc, t, rf, R, i + 1));
      assert opt[i + 1] == [MatVec(K, inv, Moved(K, inv, rc, t, rf, R, i + 1))[0]];
    }
  }

  lemma PartialTurn<F>(K: Field<F>, d: nat, mds: Matrix<F>, rc: Matrix<F>, t: nat, s: Vec<F>, lo: nat, hi: nat,
                       y: Vec<F>)
    requires lo <= hi < |rc| && t >= 1 && Shape(mds, t, t) && Shape(rc, |rc|, t) && |s| == |y| == t
    requires Same(y, PartialRounds(K, d, mds, rc, t, s, lo, hi))
    ensures var z := VAdd(K, y, rc[hi]);
            Same(MatVec(K, mds, z[0 := Pow(K, z[0], d)]), PartialRounds(K, d, mds, rc, t, s, lo, hi + 1))
  {
  }

  /** After `i` partial rounds: the textbook state `y`, and the dense one `x` with the
      constants moved ahead. */
  ghost predicate MovedTracking<F>(K: Field<F>, d: nat, mds: Matrix<F>, rc: Matrix<F>, t: nat, rf: nat, R: nat,
                                   inv: Matrix<F>, opt: Matrix<F>, heads: Heads<F>, s: Vec<F>, i: nat,
                                   y: Vec<F>, x: Vec<F>)
    requires MovedConstants(K, mds, rc, t, rf, R, inv, opt) && |s| == t && i <= R
  {
    && |y| == |x| == t && Same(y, PartialRounds(K, d, mds, rc, t, s, rf, rf + i))
    && Same(x, DenseRun(K, Transpose(mds, t), t, heads, VAdd(K, s, opt[0]), i))
    && Same(x, WithMoved(K, inv, rc, t, rf, R, y, i))
  }

  /** The round itself, on states that correspond. */
  lemma MovedTurn<F(!new)>(K: Field<F>, d: nat, mds: Matrix<F>, rc: Matrix<F>, t: nat, rf: nat, R: nat,
                           inv: Matrix<F>, opt: Matrix<F>, y: Vec<F>, x: Vec<F>, i: nat, a: F)
    requires IsField(K) && MovedConstants(K, mds, rc, t, rf, R, inv, opt) && |y| == |x| == t && i < R
    requires Same(x, WithMoved(K, inv, rc, t, rf, R, y, i)) && a == HeadOf(K, d, opt, i, x[0])
    ensures var z := VAdd(K, y, rc[rf + i]);
            Same(Comb(K, x[0 := a], Transpose(mds, t), t),
                 WithMoved(K, inv, rc, t, rf, R, MatVec(K, mds, z[0 := Pow(K, z[0], d)]), i + 1))
  {
    MovedRound(K, d, mds, rc, t, rf, R, inv, opt, y, i);
    MatVecTranspose(K, mds, x[0 := a]);
  }

  lemma MovedTrackingTurn<F(!new)>(K: Field<F>, d: nat, mds: Matrix<F>, rc: Matrix<F>, t: nat, rf: nat, R: nat,
                                   inv: Matrix<F>, opt: Matrix<F>, heads: Heads<F>, s: Vec<F>, i: nat,
                                   y: Vec<F>, x: Vec<F>)
    returns (y': Vec<F>, x': Vec<F>)
    requires IsField(K) && MovedConstants(K, mds, rc, t, rf, R, inv, opt) && |s| == t && i < R
    requires IsHeads(heads, K, d, opt) && MovedTracking(K, d, mds, rc, t, rf, R, inv, opt, heads, s, i, y, x)
    ensures MovedTracking(K, d, mds, rc, t, rf, R, inv, opt, heads, s, i + 1, y', x')
  {
    var a, z := heads(i, x[0]), VAdd(K, y, rc[rf + i]);
    MovedTurn(K, d, mds, rc, t, rf, R, inv, opt, y, x, i, a);
    PartialTurn(K, d, mds, rc, t, s, rf, rf + i, y);
    DenseRunTurn(K, Transpose(mds, t), t, heads, VAdd(K, s, opt[0]), i, x);
    y', x' := MatVec(K, mds, z[0 := Pow(K, z[0], d)]), Comb(K, x[0 := a], Transpose(mds, t), t);
  }

  /** With the constants moved, the dense rounds are `Moved` ahead of the textbook ones. */
  lemma {:induction false} MovedRunTracks<F(!new)>(K: Field<F>, d: nat, mds: Matrix<F>, rc: Matrix<F>, t: nat,
                                                   rf: nat, R: nat, inv: Matrix<F>, opt: Matrix<F>,
                                                   heads: Heads<F>, s: Vec<F>, i: nat)
    returns (y: Vec<F>, x: Vec<F>)
    requires IsField(K) && MovedConstants(K, mds, rc, t, rf, R, inv, opt) && |s| == t && i <= R
    requires IsHeads(heads, K, d, opt)
    ensures MovedTracking(K, d, mds, rc, t, rf, R, inv, opt, heads, s, i, y, x)
  {
    if i == 0 {
      y, x := s, VAdd(K, s, opt[0]);
    } else {
      var y0, x0 := MovedRunTracks(K, d, mds, rc, t, rf, R, inv, opt, heads, s, i - 1);
      y, x := MovedTrackingTurn(K, d, mds, rc, t, rf, R, inv, opt, heads, s, i - 1, y0, x0);
    }
  }

  // ----- parameters -----

  datatype Params<!F> = Params(
    t: nat,
    d: nat,
    roundsFBeginning: nat,
    roundsP: nat,
    roundsFEnd: nat,
    rounds: nat,
    mds: Matrix<F>,
    roundConstants: Matrix<F>,
    optRoundConstants: Matrix<F>,
    wHat: Matrix<F>,
    v: Matrix<F>,
    mI: Matrix<F>)

  datatype Built<!F> = Ok(params: Params<F>) | InvalidParameters | Panicked

  /** The dimensions `new` checks. */
  ghost predicate Plain<F>(p: Params<F>) {
    && p.t >= 1 && p.roundsP >= 1
    && p.roundsFEnd == p.roundsFBeginning && p.rounds == 2 * p.roundsFBeginning + p.roundsP
    && Shape(p.mds, p.t, p.t) && Shape(p.roundConstants, p.rounds, p.t)
  }

  ghost predicate Precomputed<F>(K: Field<F>, p: Params<F>, inv: Matrix<F>)
    requires Plain(p)
  {
    var N := Transpose(p.mds, p.t);
    && Shape(N, p.t, p.t)
    && SparseFactors(K, N, p.t, p.roundsP, p.v, p.wHat)
    && p.mI == Transpose(Block(K, Stage(K, N, p.t, p.roundsP - 1), p.t), p.t)
    && MovedConstants(K, p.mds, p.roundConstants, p.t, p.roundsFBeginning, p.roundsP, inv, p.optRoundConstants)
  }

  /** The relation between the plain and the precomputed fields. It sits behind the
      marker `At1(p)` so that only proofs that ask for it carry it. */
  ghost predicate Valid<F(!new)>(K: Field<F>, p: Params<F>) {
    && Plain(p)
    && forall q {:trigger At1(q)} :: q == p ==> exists inv :: Precomputed(K, q, inv)
  }

  /** No leading block of the first `R` powers of the inner matrix is singular. */
  ghost predicate InnerPowersNonsingular<F(!new)>(K: Field<F>, N: Matrix<F>, t: nat, R: nat)
    requires t >= 1 && Shape(N, t, t)
  {
    forall k {:trigger MatPower(K, Inner(N, t), t - 1, k)} :: 1 <= k <= R ==>
      NonsingularLeads(K, MatPower(K, Inner(N, t), t - 1, k))
  }

  method MatVecMul<F(!new)>(K: Field<F>, A: Matrix<F>, x: Vec<F>) returns (out: Vec<F>)
    requires Shape(A, |A|, |x|)
    ensures out == MatVec(K, A, x)
  {
    out := [];
    for i := 0 to |A|
      invariant |out| == i
      invariant forall k :: 0 <= k < i ==> out[k] == Dot(K, A[k], x)
    {
      var acc := K.zero;
      for j := 0 to |x|
        invariant acc == Dot(K, A[i][..j], x[..j])
      {
        DotOneMore(K, A[i], x, j);
        acc := K.add(acc, K.mul(A[i][j], x[j]));
      }
      assert A[i][..|x|] == A[i] && x[..|x|] == x;
      out := out + [acc];
    }
  }

  method MatMatMul<F(!new)>(K: Field<F>, A: Matrix<F>, B: Matrix<F>, t: nat) returns (out: Matrix<F>)
    requires Shape(A, t, t) && Shape(B, t, t)
    ensures out == MatMul(K, A, B, t)
  {
    out := [];
    for i := 0 to t
      invariant |out| == i
      invariant forall k :: 0 <= k < i ==> Same(out[k], Comb(K, A[k], B, t))
    {
      var row := RowTimes(K, A[i], B, t);
      out := out + [row];
    }
  }

  /** One row of the product. */
  method RowTimes<F(!new)>(K: Field<F>, x: Vec<F>, B: Matrix<F>, t: nat) returns (row: Vec<F>)
    requires Shape(B, t, t) && |x| == t
    ensures Same(row, Comb(K, x, B, t))
  {
    row := [];
    for c := 0 to t
      invariant |row| == c
      invariant forall k :: 0 <= k < c ==> row[k] == Dot(K, x, Column(B, k))
    {
      var acc := K.zero;
      ghost var col := Column(B, c);
      for j := 0 to t
        invariant acc == Dot(K, x[..j], col[..j])
      {
        DotOneMore(K, x, col, j);
        acc := K.add(acc, K.mul(x[j], B[j][c]));
      }
      assert x[..t] == x && col[..t] == col;
      row := row + [acc];
    }
    assert row == Comb(K, x, B, t);
  }

  method MatTranspose<F(!new)>(A: Matrix<F>, cols: nat) returns (out: Matrix<F>)
    requires Shape(A, |A|, cols)
    ensures out == Transpose(A, cols)
  {
    out := seq(cols, c => []);
    for row := 0 to |A|
      invariant |out| == cols
      invariant forall c :: 0 <= c < cols ==> out[c] == Column(A, c)[..row]
    {
      ghost var before := out;
      for col := 0 to cols
        invariant |out| == cols
        invariant forall c :: 0 <= c < col ==> out[c] == Column(A, c)[..row + 1]
        invariant forall c :: col <= c < cols ==> out[c] == Column(A, c)[..row]
      {
        out := out[col := out[col] + [A[row][col]]];
      }
    }
    assert forall c :: 0 <= c < cols ==> Column(A, c)[..|A|] == Column(A, c);
  }

  /** Reads `m_hat`, `w` and `v` off the current matrix. */
  method SplitStage<F(!new)>(A: Matrix<F>, t: nat) returns (mHat: Matrix<F>, w: Vec<F>, v: Vec<F>)
    requires t >= 1 && Shape(A, t, t)
    ensures mHat == Inner(A, t) && w == Column(A, 0)[1..] && v == A[0][1..]
  {
    v := A[0][1..];
    mHat, w := [], [];
    for row := 1 to t
      invariant |mHat| == |w| == row - 1
      invariant forall i :: 0 <= i < row - 1 ==> mHat[i] == A[i + 1][1..] && w[i] == A[i + 1][0]
    {
      var r := [];
      for col := 1 to t
        invariant r == A[row][1..col]
      {
        r := r + [A[row][col]];
      }
      mHat := mHat + [r];
      w := w + [A[row][0]];
    }
  }

  /** Turns the current matrix into its block factor. */
  method MakeBlock<F(!new)>(K: Field<F>, A: Matrix<F>, t: nat) returns (mI: Matrix<F>)
    requires t >= 1 && Shape(A, t, t)
    ensures mI == Block(K, A, t)
  {
    mI := A[0 := A[0][0 := K.one]];
    for i := 1 to t
      invariant Shape(mI, t, t)
      invariant forall c :: 0 <= c < t ==> mI[0][c] == if c < i then Unit(K, t, 0)[c] else A[0][c]
      invariant forall r :: 1 <= r < t ==> mI[r] == if r < i then BlockRow(K, A, t, r) else A[r]
    {
      mI := mI[0 := mI[0][i := K.zero]];
      mI := mI[i := mI[i][0 := K.zero]];
      assert mI[i] == BlockRow(K, A, t, i);
    }
    assert mI[0] == BlockRow(K, A, t, 0);
  }

  /** One pass of the loop in `equivalent_matrices`: the factors of the current
      matrix, `None` being the panic on a zero pivot. */
  method FactorStage<F(!new, ==)>(K: Field<F>, ghost N: Matrix<F>, t: nat, ghost k: nat, mMul: Matrix<F>)
    returns (r: Option<(Vec<F>, Vec<F>)>)
    requires IsField(K) && t >= 1 && Shape(N, t, t) && mMul == Stage(K, N, t, k)
    ensures r.Some? <==> NonsingularLeads(K, Inner(mMul, t))
    ensures r.Some? ==> FactorAt(K, N, t, k, r.value.0, r.value.1)
  {
    var mHat, w, v := SplitStage(mMul, t);
    var mHatInv := MatInverse(K, mHat);
    if mHatInv.None? {
      return None;
    }
    var wHat := MatVecMul(K, mHatInv.value, w);
    SolveCancels(K, mHat, mHatInv.value, w);
    r := Some((v, wHat));
  }

  lemma MoreStages<F(!new)>(K: Field<F>, N: Matrix<F>, t: nat, k: nat)
    requires IsField(K) && t >= 1 && Shape(N, t, t)
    ensures InnerPowersNonsingular(K, N, t, 0)
    ensures InnerPowersNonsingular(K, N, t, k + 1)
            <==> InnerPowersNonsingular(K, N, t, k) && NonsingularLeads(K, Inner(Stage(K, N, t, k), t))
  {
    InnerStage(K, N, t, k);
  }

  lemma FewerStages<F(!new)>(K: Field<F>, N: Matrix<F>, t: nat, k: nat, R: nat)
    requires t >= 1 && Shape(N, t, t) && k <= R
    ensures InnerPowersNonsingular(K, N, t, R) ==> InnerPowersNonsingular(K, N, t, k)
  {
  }

  ghost predicate IsStage<F>(K: Field<F>, N: Matrix<F>, t: nat, k: nat, A: Matrix<F>)
    requires t >= 1 && Shape(N, t, t)
  {
    A == Stage(K, N, t, k)
  }

  ghost predicate IsBlock<F>(K: Field<F>, N: Matrix<F>, t: nat, k: nat, B: Matrix<F>)
    requires t >= 1 && Shape(N, t, t)
  {
    k > 0 ==> B == Block(K, Stage(K, N, t, k - 1), t)
  }

  /** Updates `m_i` and `m_mul`. */
  method NextStage<F(!new)>(K: Field<F>, N: Matrix<F>, t: nat, ghost k: nat, mMul: Matrix<F>)
    returns (mI: Matrix<F>, next: Matrix<F>)
    requires t >= 1 && Shape(N, t, t) && IsStage(K, N, t, k, mMul)
    ensures IsBlock(K, N, t, k + 1, mI) && IsStage(K, N, t, k + 1, next)
  {
    mI := MakeBlock(K, mMul, t);
    next := MatMatMul(K, N, mI, t);
  }

  /** `equivalent_matrices`; `None` is the panic on a zero pivot. */
  method EquivalentMatrices<F(!new, ==)>(K: Field<F>, mds: Matrix<F>, t: nat, R: nat)
    returns (r: Option<(Matrix<F>, Matrix<F>, Matrix<F>)>)
    requires IsField(K) && t >= 1 && R >= 1 && Shape(mds, t, t)
    ensures r.Some? <==> InnerPowersNonsingular(K, Transpose(mds, t), t, R)
    ensures r.Some? ==>
      var (mI, v, wHat) := r.value;
      && SparseFactors(K, Transpose(mds, t), t, R, v, wHat)
      && mI == Transpose(Block(K, Stage(K, Transpose(mds, t), t, R - 1), t), t)
  {
    var N := MatTranspose(mds, t);
    var wHat, v: Matrix<F> := [], [];
    var mI: Matrix<F> := N;
    var mMul := N;
    MoreStages(K, N, t, 0);
    for k := 0 to R
      invariant Shape(N, t, t) && IsStage(K, N, t, k, mMul)
      invariant SparseFactors(K, N, t, k, v, wHat)
      invariant InnerPowersNonsingular(K, N, t, k)
      invariant IsBlock(K, N, t, k, mI)
    {
      var f := FactorStage(K, N, t, k, mMul);
      MoreStages(K, N, t, k);
      if f.None? {
        FewerStages(K, N, t, k + 1, R);
        return None;
      }
      AppendFactor(K, N, t, k, v, wHat, f.value.0, f.value.1);
      wHat := wHat + [f.value.1];
      v := v + [f.value.0];
      mI, mMul := NextStage(K, N, t, k, mMul);
    }
    mI := MatTranspose(mI, t);
    r := Some((mI, v, wHat));
  }

  lemma AppendFactor<F(!new)>(K: Field<F>, N: Matrix<F>, t: nat, k: nat, v: Matrix<F>, w: Matrix<F>, v': Vec<F>,
                              w': Vec<F>)
    requires SparseFactors(K, N, t, k, v, w) && |v'| == |w'| == t - 1
    requires FactorAt(K, N, t, k, v', w')
    ensures SparseFactors(K, N, t, k + 1, v + [v'], w + [w'])
  {
    forall j | 0 <= j < k + 1 ensures FactorAt(K, N, t, j, (v + [v'])[j], (w + [w'])[j]) {
      if j < k {
        assert FactorAt(K, N, t, j, v[j], w[j]);
      }
    }
  }

  /** The inner loop: everything but the first element is added. */
  method AddToTail<F(!new)>(K: Field<F>, c: Vec<F>, u: Vec<F>) returns (tmp: Vec<F>)
    requires |c| == |u| > 0
    ensures |tmp| == |c| && Same(tmp, AddTail(K, c, u))
  {
    tmp := c;
    for k := 1 to |u|
      invariant |tmp| == |c|
      invariant forall j :: 0 <= j < k ==> tmp[j] == AddTail(K, c, u)[j]
      invariant forall j :: k <= j < |c| ==> tmp[j] == c[j]
    {
      tmp := tmp[k := K.add(tmp[k], u[k])];
    }
    assert tmp == AddTail(K, c, u);
  }

  /** `equivalent_round_constants`; `None` is the panic on a zero pivot. */
  method EquivalentRoundConstants<F(!new, ==)>(K: Field<F>, rc: Matrix<F>, mds: Matrix<F>, t: nat, rf: nat, R: nat)
    returns (r: Option<Matrix<F>>, ghost inv: Matrix<F>)
    requires IsField(K) && t >= 1 && R >= 1 && rf + R <= |rc| && Shape(rc, |rc|, t) && Shape(mds, t, t)
    ensures r.Some? <==> NonsingularLeads(K, mds)
    ensures r.Some? ==> MovedConstants(K, mds, rc, t, rf, R, inv, r.value)
  {
    var opt: Matrix<F> := seq(R, i => []);
    var mdsInv := MatInverse(K, mds);
    inv := [];
    if mdsInv.None? {
      return None, inv;
    }
    inv := mdsInv.value;
    var pEnd := rf + R - 1;
    var tmp := rc[pEnd];
    var i := R - 1;
    while i > 0
      invariant 0 <= i <= R - 1 && |opt| == R
      invariant |tmp| == t && Same(tmp, Moved(K, inv, rc, t, rf, R, i))
      invariant forall k {:trigger opt[k]} ::
                  i < k < R ==> opt[k] == [MatVec(K, inv, Moved(K, inv, rc, t, rf, R, k))[0]]
    {
      i := i - 1;
      var invCip := MatVecMul(K, mdsInv.value, tmp);
      opt := opt[i + 1 := [invCip[0]]];
      tmp := AddToTail(K, rc[rf + i], invCip);
    }
    opt := opt[0 := tmp];
    r := Some(opt);
  }

  /** `PoseidonParams::new`. The panics are those of a zero pivot, of an empty matrix
      and of `rounds_p - 1` at zero. */
  method New<F(!new, ==)>(K: Field<F>, t: nat, d: nat, roundsF: nat, roundsP: nat, mds: Matrix<F>, rc: Matrix<F>)
    returns (r: Built<F>)
    requires IsField(K)
    ensures r.InvalidParameters? <==> !(Shape(mds, t, t) && Shape(rc, roundsF + roundsP, t) && roundsF % 2 == 0)
    ensures !r.InvalidParameters? ==>
      (r.Panicked? <==> t == 0 || roundsP == 0 || !NonsingularLeads(K, mds)
                        || !InnerPowersNonsingular(K, Transpose(mds, t), t, roundsP))
    ensures r.Ok? ==>
      && Valid(K, r.params)
      && r.params.t == t && r.params.d == d && r.params.mds == mds && r.params.roundConstants == rc
      && r.params.roundsP == roundsP && 2 * r.params.roundsFBeginning == roundsF
  {
    if |mds| != t || exists i :: 0 <= i < |mds| && |mds[i]| != t {
      return InvalidParameters;
    }
    var rounds := roundsF + roundsP;
    if |rc| != rounds || exists i :: 0 <= i < |rc| && |rc[i]| != t {
      return InvalidParameters;
    }
    if roundsF % 2 != 0 {
      return InvalidParameters;
    }
    var rf := roundsF / 2;
    if t == 0 || roundsP == 0 {
      return Panicked;
    }
    var m := EquivalentMatrices(K, mds, t, roundsP);
    if m.None? {
      return Panicked;
    }
    var (mI, v, wHat) := m.value;
    var opt, inv := EquivalentRoundConstants(K, rc, mds, t, rf, roundsP);
    if opt.None? {
      return Panicked;
    }
    ghost var p := Params(t, d, rf, roundsP, rf, rounds, mds, rc, opt.value, wHat, v, mI);
    assert Precomputed(K, p, inv);
    r := Ok(Params(t, d, rf, roundsP, rf, rounds, mds, rc, opt.value, wHat, v, mI));
  }

  // ----- the permutation -----

  /** `sbox_p`, with the short chains for the degrees in use. */
  function SboxP<F>(K: Field<F>, d: nat, x: F): F {
    if d == 3 then K.mul(K.mul(x, x), x)
    else if d == 5 then
      var x2 := K.mul(x, x);
      K.mul(K.mul(x2, x2), x)
    else if d == 7 then
      var x2 := K.mul(x, x);
      K.mul(K.mul(K.mul(x2, x2), x2), x)
    else Pow(K, x, d)
  }

  lemma SboxPIsPow<F(!new)>(K: Field<F>, d: nat, x: F)
    requires IsField(K)
    ensures SboxP(K, d, x) == Pow(K, x, d)
  {
    if d == 3 || d == 5 || d == 7 {
      var x2 := K.mul(x, x);
      Units(K, x);
      assert Pow(K, x, 1) == x;
      assert Pow(K, x, 2) == x2;
      assert Pow(K, x, 3) == K.mul(x2, x);
      Assoc(K, x2, x, x);
      var x4 := K.mul(x2, x2);
      assert Pow(K, x, 4) == x4;
      assert Pow(K, x, 5) == K.mul(x4, x);
      Assoc(K, x4, x, x);
      assert Pow(K, x, 6) == K.mul(x4, x2);
      assert Pow(K, x, 7) == K.mul(K.mul(x4, x2), x);
    }
  }

  method Sbox<F(!new)>(K: Field<F>, d: nat, s: Vec<F>) returns (r: Vec<F>)
    requires IsField(K)
    ensures r == SboxAll(K, d, s)
  {
    r := s;
    for i := 0 to |s|
      invariant |r| == |s|
      invariant forall k :: 0 <= k < i ==> r[k] == Pow(K, s[k], d)
      invariant forall k :: i <= k < |s| ==> r[k] == s[k]
    {
      SboxPIsPow(K, d, r[i]);
      r := r[i := SboxP(K, d, r[i])];
    }
  }

  method AddRc<F(!new)>(K: Field<F>, s: Vec<F>, rc: Vec<F>) returns (r: Vec<F>)
    requires |s| == |rc|
    ensures r == VAdd(K, s, rc)
  {
    r := s;
    for i := 0 to |s|
      invariant |r| == |s|
      invariant forall k :: 0 <= k < i ==> r[k] == K.add(s[k], rc[k])
      invariant forall k :: i <= k < |s| ==> r[k] == s[k]
    {
      r := r[i := K.add(r[i], rc[i])];
    }
  }

  method CheapMatmul<F(!new)>(K: Field<F>, a00: F, v: Vec<F>, w: Vec<F>, x: Vec<F>) returns (r: Vec<F>)
    requires IsField(K) && |v| == |w| && |x| == |v| + 1
    ensures Same(r, CheapProduct(K, a00, v, w, x))
  {
    var first := K.mul(a00, x[0]);
    ghost var xs := x[1..];
    Units(K, first);
    for k := 0 to |w|
      invariant first == K.add(K.mul(a00, x[0]), Dot(K, w[..k], xs[..k]))
    {
      DotOneMore(K, w, xs, k);
      Assoc(K, K.mul(a00, x[0]), Dot(K, w[..k], xs[..k]), K.mul(w[k], x[k + 1]));
      first := K.add(first, K.mul(w[k], x[k + 1]));
    }
    assert w[..|w|] == w && xs[..|w|] == xs;
    r := [first];
    for k := 0 to |v|
      invariant |r| == k + 1 && r[0] == first
      invariant forall j :: 0 <= j < k ==> r[j + 1] == K.add(K.mul(x[0], v[j]), x[j + 1])
    {
      r := r + [K.add(K.mul(x[0], v[k]), x[k + 1])];
    }
    CheapEntries(K, a00, v, w, x, r);
  }

  lemma CheapEntries<F>(K: Field<F>, a00: F, v: Vec<F>, w: Vec<F>, x: Vec<F>, r: Vec<F>)
    requires |v| == |w| && |r| == |x| == |v| + 1 && r[0] == K.add(K.mul(a00, x[0]), Dot(K, w, x[1..]))
    requires forall j :: 0 <= j < |v| ==> r[j + 1] == K.add(K.mul(x[0], v[j]), x[j + 1])
    ensures Same(r, CheapProduct(K, a00, v, w, x))
  {
    assert r == CheapProduct(K, a00, v, w, x);
  }

  ghost predicate FullResult<F>(K: Field<F>, p: Params<F>, s: Vec<F>, lo: nat, hi: nat, r: Vec<F>)
    requires Plain(p) && |s| == p.t && lo <= hi <= p.rounds
  {
    |r| == p.t && Same(r, FullRounds(K, p.d, p.mds, p.roundConstants, p.t, s, lo, hi))
  }

  ghost predicate PartialResult<F>(K: Field<F>, p: Params<F>, s: Vec<F>, r: Vec<F>)
    requires Plain(p) && |s| == p.t
  {
    |r| == p.t &&
    Same(r, PartialRounds(K, p.d, p.mds, p.roundConstants, p.t, s, p.roundsFBeginning, p.roundsFBeginning + p.roundsP))
  }

  lemma TextbookParts<F>(K: Field<F>, p: Params<F>, s: Vec<F>, a: Vec<F>, b: Vec<F>, c: Vec<F>)
    requires Plain(p) && |s| == |a| == |b| == p.t
    requires FullResult(K, p, s, 0, p.roundsFBeginning, a)
    requires PartialResult(K, p, a, b)
    requires FullResult(K, p, b, p.roundsFBeginning + p.roundsP, p.rounds, c)
    ensures Same(c, Textbook(K, p.d, p.mds, p.roundConstants, p.t, p.roundsFBeginning, p.roundsP, s))
  {
  }

  /** The loop over the optimised partial rounds. */
  method SparseLoop<F(!new)>(K: Field<F>, d: nat, a00: F, v: Matrix<F>, wHat: Matrix<F>, opt: Matrix<F>,
                             t: nat, R: nat, z: Vec<F>, ghost heads: Heads<F>) returns (r: Vec<F>)
    requires IsField(K) && t >= 1 && Shape(v, R, t - 1) && Shape(wHat, R, t - 1) && |z| == t
    requires |opt| == R && forall i :: 1 <= i < R ==> |opt[i]| == 1
    requires IsHeads(heads, K, d, opt)
    ensures Same(r, SparseRun(K, a00, v, wHat, t, R, heads, z, R))
  {
    r := z;
    for i := 0 to R
      invariant |r| == t && AfterTurns(K, a00, v, wHat, t, R, heads, z, i, r)
    {
      ghost var y := r;
      var turned := TurnHead(K, d, opt, i, r);
      r := CheapMatmul(K, a00, v[R - i - 1], wHat[R - i - 1], turned);
      OneMoreTurn(K, d, opt, a00, v, wHat, t, R, heads, z, i, y, turned, r);
    }
  }

  ghost predicate AfterTurns<F>(K: Field<F>, a00: F, v: Matrix<F>, wHat: Matrix<F>, t: nat, R: nat, heads: Heads<F>,
                                z: Vec<F>, i: nat, r: Vec<F>)
    requires t >= 1 && Shape(v, R, t - 1) && Shape(wHat, R, t - 1) && |z| == t && i <= R
  {
    Same(r, SparseRun(K, a00, v, wHat, t, R, heads, z, i))
  }

  lemma OneMoreTurn<F(!new)>(K: Field<F>, d: nat, opt: Matrix<F>, a00: F, v: Matrix<F>, wHat: Matrix<F>, t: nat, R: nat,
                             heads: Heads<F>, z: Vec<F>, i: nat, y: Vec<F>, turned: Vec<F>, r: Vec<F>)
    requires t >= 1 && Shape(v, R, t - 1) && Shape(wHat, R, t - 1) && |z| == |y| == |turned| == t && i < R
    requires IsHeads(heads, K, d, opt) && AfterTurns(K, a00, v, wHat, t, R, heads, z, i, y)
    requires Same(turned, y[0 := HeadOf(K, d, opt, i, y[0])])
    requires Same(r, CheapProduct(K, a00, v[R - i - 1], wHat[R - i - 1], turned))
    ensures AfterTurns(K, a00, v, wHat, t, R, heads, z, i + 1, r)
  {
    assert Same(heads(i, y[0]), HeadOf(K, d, opt, i, y[0]));
    SparseRunTurn(K, a00, v, wHat, t, R, heads, z, i, y);
  }

  /** S-box and moved constant on the first element. */
  method TurnHead<F(!new)>(K: Field<F>, d: nat, opt: Matrix<F>, i: nat, s: Vec<F>) returns (r: Vec<F>)
    requires IsField(K) && |s| > 0 && i < |opt| && forall k :: 1 <= k < |opt| ==> |opt[k]| == 1
    ensures Same(r, s[0 := HeadOf(K, d, opt, i, s[0])])
  {
    SboxPIsPow(K, d, s[0]);
    r := s[0 := SboxP(K, d, s[0])];
    if i < |opt| - 1 {
      r := r[0 := K.add(r[0], opt[i + 1][0])];
    }
    assert r == s[0 := HeadOf(K, d, opt, i, s[0])];
  }

  ghost predicate OptShapes<F>(p: Params<F>) {
    && Plain(p)
    && Shape(p.mI, p.t, p.t) && Shape(p.v, p.roundsP, p.t - 1) && Shape(p.wHat, p.roundsP, p.t - 1)
    && |p.optRoundConstants| == p.roundsP && |p.optRoundConstants[0]| == p.t
    && forall i :: 1 <= i < p.roundsP ==> |p.optRoundConstants[i]| == 1
  }

  ghost predicate SparseResult<F>(K: Field<F>, p: Params<F>, heads: Heads<F>, s: Vec<F>, r: Vec<F>)
    requires OptShapes(p) && |s| == p.t
  {
    Same(r, SparseRun(K, p.mds[0][0], p.v, p.wHat, p.t, p.roundsP, heads,
                      MatVec(K, p.mI, VAdd(K, s, p.optRoundConstants[0])), p.roundsP))
  }

  ghost predicate DenseResult<F>(K: Field<F>, p: Params<F>, heads: Heads<F>, s: Vec<F>, r: Vec<F>)
    requires OptShapes(p) && |s| == p.t
  {
    Shape(Transpose(p.mds, p.t), p.t, p.t) &&
    Same(r, DenseRun(K, Transpose(p.mds, p.t), p.t, heads,
                     VAdd(K, s, p.optRoundConstants[0]), p.roundsP))
  }

  /** The sparse rounds after `m_i` are dense rounds. */
  lemma SparseRoundsAreDense<F(!new)>(K: Field<F>, p: Params<F>, heads: Heads<F>, s: Vec<F>, r: Vec<F>)
    requires IsField(K) && Valid(K, p) && OptShapes(p) && |s| == p.t
    requires SparseResult(K, p, heads, s, r)
    ensures DenseResult(K, p, heads, s, r)
  {
    var x := VAdd(K, s, p.optRoundConstants[0]);
    PrecomputedFactors(K, p);
    BlockFirst(K, p, x);
    SparseRunIsDense(K, Transpose(p.mds, p.t), p.t, p.roundsP, p.v, p.wHat, heads, x);
  }

  /** What the rewrite of the linear layers uses of the precomputed fields. */
  lemma PrecomputedFactors<F(!new)>(K: Field<F>, p: Params<F>)
    requires Valid(K, p)
    ensures SparseFactors(K, Transpose(p.mds, p.t), p.t, p.roundsP, p.v, p.wHat)
    ensures Transpose(p.mds, p.t)[0][0] == p.mds[0][0]
  {
    assert At1(p);
    var inv :| Precomputed(K, p, inv);
  }

  /** The one product with `m_i` is the block factor of the last stage. */
  lemma BlockFirst<F(!new)>(K: Field<F>, p: Params<F>, x: Vec<F>)
    requires IsField(K) && Valid(K, p) && OptShapes(p) && |x| == p.t
    ensures Shape(Transpose(p.mds, p.t), p.t, p.t)
    ensures Same(MatVec(K, p.mI, x),
                 Comb(K, x, Block(K, Stage(K, Transpose(p.mds, p.t), p.t, p.roundsP - 1), p.t), p.t))
  {
    assert At1(p);
    var inv :| Precomputed(K, p, inv);
    ApplyTransposed(K, Block(K, Stage(K, Transpose(p.mds, p.t), p.t, p.roundsP - 1), p.t), p.t, x);
  }

  /** Dense rounds with the moved constants are the textbook rounds. */
  lemma DenseRoundsAreTextbook<F(!new)>(K: Field<F>, p: Params<F>, heads: Heads<F>, s: Vec<F>, r: Vec<F>)
    requires IsField(K) && Valid(K, p) && OptShapes(p) && |s| == p.t
    requires DenseResult(K, p, heads, s, r) && IsHeads(heads, K, p.d, p.optRoundConstants)
    ensures PartialResult(K, p, s, r)
  {
    assert At1(p);
    var inv :| Precomputed(K, p, inv);
    var y, x := MovedRunTracks(K, p.d, p.mds, p.roundConstants, p.t, p.roundsFBeginning, p.roundsP, inv,
                               p.optRoundConstants, heads, s, p.roundsP);
  }

  lemma OptimisedShapes<F(!new)>(K: Field<F>, p: Params<F>)
    requires Valid(K, p)
    ensures OptShapes(p)
  {
    assert At1(p);
    var inv :| Precomputed(K, p, inv);
    TransposeTwice(Block(K, Stage(K, Transpose(p.mds, p.t), p.t, p.roundsP - 1), p.t), p.t);
  }

  method PartialPart<F(!new)>(K: Field<F>, p: Params<F>, s: Vec<F>) returns (r: Vec<F>)
    requires IsField(K) && Valid(K, p) && |s| == p.t
    ensures PartialResult(K, p, s, r)
  {
    OptimisedShapes(K, p);
    ghost var heads := (j: nat, x: F) => HeadOf(K, p.d, p.optRoundConstants, j, x);
    r := AddRc(K, s, p.optRoundConstants[0]);
    r := MatVecMul(K, p.mI, r);
    r := SparseLoop(K, p.d, p.mds[0][0], p.v, p.wHat, p.optRoundConstants, p.t, p.roundsP, r, heads);
    assert SparseResult(K, p, heads, s, r);
    SparseRoundsAreDense(K, p, heads, s, r);
    DenseRoundsAreTextbook(K, p, heads, s, r);
  }

  lemma ApplyTransposed<F(!new)>(K: Field<F>, B: Matrix<F>, t: nat, x: Vec<F>)
    requires IsField(K) && Shape(B, t, t) && |x| == t
    ensures Shape(Transpose(B, t), t, t) && Same(MatVec(K, Transpose(B, t), x), Comb(K, x, B, t))
  {
    TransposeTwice(B, t);
    MatVecTranspose(K, Transpose(B, t), x);
  }

  lemma TransposeTwice<F>(A: Matrix<F>, t: nat)
    requires Shape(A, t, t)
    ensures Shape(Transpose(A, t), t, t) && Transpose(Transpose(A, t), t) == A
  {
    forall i | 0 <= i < t ensures Transpose(Transpose(A, t), t)[i] == A[i] {
    }
  }

  method FullPart<F(!new)>(K: Field<F>, p: Params<F>, s: Vec<F>, lo: nat, hi: nat) returns (r: Vec<F>)
    requires IsField(K) && Plain(p) && |s| == p.t && lo <= hi <= p.rounds
    ensures FullResult(K, p, s, lo, hi, r)
  {
    r := s;
    for i := lo to hi
      invariant |r| == p.t && Same(r, FullRounds(K, p.d, p.mds, p.roundConstants, p.t, s, lo, i))
    {
      r := AddRc(K, r, p.roundConstants[i]);
      r := Sbox(K, p.d, r);
      r := MatVecMul(K, p.mds, r);
    }
  }

  // ----- the rounds, element by element -----

  predicate FullRound<F>(p: Params<F>, i: nat) {
    i < p.roundsFBeginning || p.roundsFBeginning + p.roundsP <= i
  }

  /** Round `i` takes `s` through `z` to `next`. */
  ghost predicate RoundStep<F>(K: Field<F>, p: Params<F>, i: nat, s: Vec<F>, z: Vec<F>, next: Vec<F>)
    requires Plain(p) && i < p.rounds
  {
    && |s| == |z| == |next| == p.t
    && (forall k :: 0 <= k < p.t ==>
          z[k] == if FullRound(p, i) || k == 0 then Pow(K, K.add(s[k], p.roundConstants[i][k]), p.d)
                  else K.add(s[k], p.roundConstants[i][k]))
    && (forall j :: 0 <= j < p.t ==> next[j] == Dot(K, p.mds[j], z))
  }

  /** The states before and after each of the first `n` rounds, and what is multiplied in. */
  ghost predicate Trace<F>(K: Field<F>, p: Params<F>, st: seq<Vec<F>>, z: seq<Vec<F>>, n: nat) {
    && Plain(p) && n <= p.rounds && |st| == n + 1 && |z| == n && |st[0]| == p.t
    && (forall i :: 0 <= i < n ==> RoundStep(K, p, i, st[i], z[i], st[i + 1]))
  }

  lemma TraceOneMore<F>(K: Field<F>, p: Params<F>, st: seq<Vec<F>>, z: seq<Vec<F>>, n: nat, x: Vec<F>, next: Vec<F>)
    requires Trace(K, p, st, z, n) && n < p.rounds && RoundStep(K, p, n, st[n], x, next)
    ensures Trace(K, p, st + [next], z + [x], n + 1)
  {
    var st', z' := st + [next], z + [x];
    forall i | 0 <= i < n + 1 ensures RoundStep(K, p, i, st'[i], z'[i], st'[i + 1]) {
      if i < n {
        assert RoundStep(K, p, i, st[i], z[i], st[i + 1]);
      }
    }
  }

  lemma FullStep<F>(K: Field<F>, p: Params<F>, i: nat, s: Vec<F>, z: Vec<F>, next: Vec<F>)
    requires Plain(p) && i < p.rounds && FullRound(p, i) && |s| == p.t
    requires Same(z, SboxAll(K, p.d, VAdd(K, s, p.roundConstants[i]))) && Same(next, MatVec(K, p.mds, z))
    ensures RoundStep(K, p, i, s, z, next)
  {
  }

  lemma PartialStep<F>(K: Field<F>, p: Params<F>, i: nat, s: Vec<F>, z: Vec<F>, next: Vec<F>)
    requires Plain(p) && i < p.rounds && !FullRound(p, i) && |s| == p.t
    requires var x := VAdd(K, s, p.roundConstants[i]);
             Same(z, x[0 := Pow(K, x[0], p.d)]) && Same(next, MatVec(K, p.mds, z))
    ensures RoundStep(K, p, i, s, z, next)
  {
  }

  lemma {:induction false} FullTrace<F>(K: Field<F>, p: Params<F>, st: seq<Vec<F>>, z: seq<Vec<F>>, lo: nat, hi: nat)
    returns (st': seq<Vec<F>>, z': seq<Vec<F>>)
    requires Trace(K, p, st, z, lo) && |st[lo]| == p.t && lo <= hi <= p.rounds
    requires hi <= p.roundsFBeginning || p.roundsFBeginning + p.roundsP <= lo
    ensures Trace(K, p, st', z', hi) && Same(st'[0], st[0])
    ensures FullResult(K, p, st[lo], lo, hi, st'[hi])
  {
    st', z' := st, z;
    if lo < hi {
      st', z' := FullTrace(K, p, st, z, lo, hi - 1);
      var s := st'[hi - 1];
      var x := SboxAll(K, p.d, VAdd(K, s, p.roundConstants[hi - 1]));
      FullStep(K, p, hi - 1, s, x, MatVec(K, p.mds, x));
      TraceOneMore(K, p, st', z', hi - 1, x, MatVec(K, p.mds, x));
      st', z' := st' + [MatVec(K, p.mds, x)], z' + [x];
    }
  }

  lemma {:induction false} PartialTrace<F>(K: Field<F>, p: Params<F>, st: seq<Vec<F>>, z: seq<Vec<F>>, hi: nat)
    returns (st': seq<Vec<F>>, z': seq<Vec<F>>)
    requires Trace(K, p, st, z, p.roundsFBeginning) && |st[p.roundsFBeginning]| == p.t
    requires p.roundsFBeginning <= hi <= p.roundsFBeginning + p.roundsP
    ensures Trace(K, p, st', z', hi) && Same(st'[0], st[0]) && |st'[hi]| == p.t
    ensures Same(st'[hi], PartialRounds(K, p.d, p.mds, p.roundConstants, p.t, st[p.roundsFBeginning],
                                        p.roundsFBeginning, hi))
  {
    st', z' := st, z;
    if p.roundsFBeginning < hi {
      st', z' := PartialTrace(K, p, st, z, hi - 1);
      var s := st'[hi - 1];
      var y := VAdd(K, s, p.roundConstants[hi - 1]);
      var x := y[0 := Pow(K, y[0], p.d)];
      PartialStep(K, p, hi - 1, s, x, MatVec(K, p.mds, x));
      TraceOneMore(K, p, st', z', hi - 1, x, MatVec(K, p.mds, x));
      st', z' := st' + [MatVec(K, p.mds, x)], z' + [x];
    }
  }

  lemma TextbookTrace<F>(K: Field<F>, p: Params<F>, input: Vec<F>, r: Vec<F>)
    returns (st: seq<Vec<F>>, z: seq<Vec<F>>)
    requires Plain(p) && |input| == p.t
    requires Same(r, Textbook(K, p.d, p.mds, p.roundConstants, p.t, p.roundsFBeginning, p.roundsP, input))
    ensures Trace(K, p, st, z, p.rounds) && Same(st[0], input) && Same(st[p.rounds], r)
  {
    var rf, rp := p.roundsFBeginning, p.roundsP;
    st, z := FullTrace(K, p, [input], [], 0, rf);
    var a := st[rf];
    st, z := PartialTrace(K, p, st, z, rf + rp);
    var b := st[rf + rp];
    st, z := FullTrace(K, p, st, z, rf + rp, p.rounds);
    TextbookParts(K, p, input, a, b, st[p.rounds]);
  }

  /** Spelled out: `st` are the states from the input to the result, `z` what each round
      multiplies by the MDS matrix, its constants added and the S-box over all of it or over
      its first element. */
  ghost predicate RoundByRound<F>(K: Field<F>, p: Params<F>, input: Vec<F>, out: Vec<F>, st: seq<Vec<F>>,
                                  z: seq<Vec<F>>)
    requires Plain(p)
  {
    && |st| == p.rounds + 1 && |z| == p.rounds && st[0] == input && st[p.rounds] == out
    && (forall i :: 0 <= i <= p.rounds ==> |st[i]| == p.t)
    && (forall i :: 0 <= i < p.rounds ==> |z[i]| == p.t)
    && (forall i, k :: 0 <= i < p.rounds && 0 <= k < p.t ==>
          z[i][k] == if i < p.roundsFBeginning || p.roundsFBeginning + p.roundsP <= i || k == 0
                     then Pow(K, K.add(st[i][k], p.roundConstants[i][k]), p.d)
                     else K.add(st[i][k], p.roundConstants[i][k]))
    && (forall i, j :: 0 <= i < p.rounds && 0 <= j < p.t ==> st[i + 1][j] == Dot(K, p.mds[j], z[i]))
  }

  lemma TraceSpelled<F>(K: Field<F>, p: Params<F>, input: Vec<F>, out: Vec<F>, st: seq<Vec<F>>, z: seq<Vec<F>>)
    requires Trace(K, p, st, z, p.rounds) && Same(st[0], input) && Same(st[p.rounds], out)
    ensures RoundByRound(K, p, input, out, st, z)
  {
    forall i | 0 <= i < p.rounds ensures |z[i]| == p.t {
      assert RoundStep(K, p, i, st[i], z[i], st[i + 1]);
    }
    forall i | 0 <= i <= p.rounds ensures |st[i]| == p.t {
      assert i > 0 ==> RoundStep(K, p, i - 1, st[i - 1], z[i - 1], st[i]);
    }
    forall i, k | 0 <= i < p.rounds && 0 <= k < p.t
      ensures st[i + 1][k] == Dot(K, p.mds[k], z[i])
      ensures z[i][k] == if i < p.roundsFBeginning || p.roundsFBeginning + p.roundsP <= i || k == 0
                         then Pow(K, K.add(st[i][k], p.roundConstants[i][k]), p.d)
                         else K.add(st[i][k], p.roundConstants[i][k])
    {
      assert RoundStep(K, p, i, st[i], z[i], st[i + 1]);
    }
  }

  /** `Poseidon::permutation`: for every field, parameter set that `New` accepts and
      input of the right length, the state the textbook rounds give. */
  method Permutation<F(!new)>(K: Field<F>, p: Params<F>, input: Vec<F>)
    returns (r: Option<Vec<F>>, ghost st: seq<Vec<F>>, ghost z: seq<Vec<F>>)
    requires IsField(K) && Valid(K, p)
    ensures r.None? <==> |input| != p.t
    ensures r.Some? ==>
      r.value == Textbook(K, p.d, p.mds, p.roundConstants, p.t, p.roundsFBeginning, p.roundsP, input)
    ensures r.Some? ==> RoundByRound(K, p, input, r.value, st, z)
  {
    st, z := [], [];
    if |input| != p.t {
      return None, [], [];
    }
    var a := FullPart(K, p, input, 0, p.roundsFBeginning);
    var b := PartialPart(K, p, a);
    var pEnd := p.roundsFBeginning + p.roundsP;
    var c := FullPart(K, p, b, pEnd, p.rounds);
    r := Some(c);
    TextbookParts(K, p, input, a, b, c);
    st, z := TextbookTrace(K, p, input, c);
    TraceSpelled(K, p, input, c, st, z);
  }
}
