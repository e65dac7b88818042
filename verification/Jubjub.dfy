/** BabyJubJub scalar multiplication: projective twisted Edwards addition against the
    affine law, and double-and-add against the n-fold sum. */
module Jubjub {
  import opened Basics
  import opened Fields
  import opened Edwards
  import opened Scalars

  datatype Projective<F> = Projective(x: F, y: F, z: F)

  // ----- the projective formulas (add-2008-bbjlp) -----

  function ToProjective<F>(c: Curve<F>, p: Point<F>): Projective<F> {
    Projective(p.x, p.y, c.K.one)
  }

  function ToAffine<F(==)>(c: Curve<F>, p: Projective<F>): Point<F> {
    if p.z == c.K.zero then Point(c.K.zero, c.K.zero)
    else
      var zinv := c.K.inv(p.z);
      Point(c.K.mul(p.x, zinv), c.K.mul(p.y, zinv))
  }

  function Add<F>(curve: Curve<F>, p: Projective<F>, q: Projective<F>): Projective<F> {
    var K := curve.K;
    var a := K.mul(p.z, q.z);
    var b := K.mul(a, a);
    var c := K.mul(p.x, q.x);
    var dxy := K.mul(p.y, q.y);
    var e := K.mul(K.mul(curve.d, c), dxy);
    var f := K.Sub(b, e);
    var g := K.add(b, e);
    var aux := K.Sub(K.Sub(K.mul(K.add(p.x, p.y), K.add(q.x, q.y)), c), dxy);
    var x3 := K.mul(K.mul(a, f), aux);
    var ac := K.mul(curve.a, c);
    var dac := K.Sub(dxy, ac);
    var y3 := K.mul(K.mul(a, g), dac);
    Projective(x3, y3, K.mul(f, g))
  }

  // ----- algebra -----

  /** b - e b == b (1 - e) and b + e b == b (1 + e) */
  lemma FactorOut<F(!new)>(K: Field<F>, b: F, e: F)
    requires IsField(K)
    ensures K.Sub(b, K.mul(e, b)) == K.mul(b, K.Sub(K.one, e))
    ensures K.add(b, K.mul(e, b)) == K.mul(b, K.add(K.one, e))
  {
    Units(K, b);
    Comm(K, e, b);
    MulNeg(K, b, e);
    Distrib(K, b, K.one, K.neg(e));
    Distrib(K, b, K.one, e);
  }

  /** (p + q) (r + s) - p r - q s == p s + q r */
  lemma CrossTerms<F(!new)>(K: Field<F>, p: F, q: F, r: F, s: F)
    requires IsField(K)
    ensures K.Sub(K.Sub(K.mul(K.add(p, q), K.add(r, s)), K.mul(p, r)), K.mul(q, s)) == K.add(K.mul(p, s), K.mul(q, r))
  {
    var pr, ps, qr, qs := K.mul(p, r), K.mul(p, s), K.mul(q, r), K.mul(q, s);
    Distrib(K, K.add(r, s), p, q);
    Distrib(K, p, r, s);
    Distrib(K, q, r, s);
    // (pr + ps) + (qr + qs) == pr + ((ps + qr) + qs)
    Assoc(K, pr, ps, K.add(qr, qs));
    Assoc(K, ps, qr, qs);
    SubSelf(K, K.add(K.add(ps, qr), qs), pr);
    Comm(K, K.add(ps, qr), qs);
    SubSelf(K, K.add(ps, qr), qs);
  }

  /** ((s f) (n s)) w == n (f ((s s) w)) */
  lemma RegroupX<F(!new)>(K: Field<F>, s: F, f: F, n: F, w: F)
    requires IsField(K)
    ensures K.mul(K.mul(K.mul(s, f), K.mul(n, s)), w) == K.mul(n, K.mul(f, K.mul(K.mul(s, s), w)))
  {
    var ss := K.mul(s, s);
    Comm(K, s, f);
    Comm(K, n, s);
    MulShuffle(K, f, s, s, n);
    MulShuffle(K, f, s, n, s);
    // (f s) (n s) == (f n) (s s)
    Comm(K, f, n);
    Assoc(K, K.mul(n, f), ss, w);
    Assoc(K, n, f, K.mul(ss, w));
  }

  /** ((s g) (n s)) w == n (((s s) w) g) */
  lemma RegroupY<F(!new)>(K: Field<F>, s: F, g: F, n: F, w: F)
    requires IsField(K)
    ensures K.mul(K.mul(K.mul(s, g), K.mul(n, s)), w) == K.mul(n, K.mul(K.mul(K.mul(s, s), w), g))
  {
    RegroupX(K, s, g, n, w);
    Comm(K, g, K.mul(K.mul(s, s), w));
  }

  /** The coordinates of a projective point are its affine ones times `z`. */
  lemma Coordinates<F(!new)>(c: Curve<F>, p: Projective<F>)
    requires IsField(c.K) && p.z != c.K.zero
    ensures p.x == c.K.mul(ToAffine(c, p).x, p.z) && p.y == c.K.mul(ToAffine(c, p).y, p.z)
  {
    var K, zi := c.K, c.K.inv(p.z);
    Inverse(K, p.z);
    Assoc(K, p.x, zi, p.z);
    Assoc(K, p.y, zi, p.z);
    Units(K, p.x);
    Units(K, p.y);
  }

  /** The intermediate values of `Add`, in terms of the affine points and s = z1 z2. */
  lemma Intermediates<F(!new)>(c: Curve<F>, p: Projective<F>, q: Projective<F>)
    requires IsField(c.K) && p.z != c.K.zero && q.z != c.K.zero
    ensures var K, u, v, s := c.K, ToAffine(c, p), ToAffine(c, q), c.K.mul(p.z, q.z);
            var b, e := K.mul(s, s), Cross(c, u, v);
            && K.mul(p.x, q.x) == K.mul(K.mul(u.x, v.x), s)
            && K.mul(p.y, q.y) == K.mul(K.mul(u.y, v.y), s)
            && K.mul(K.mul(c.d, K.mul(p.x, q.x)), K.mul(p.y, q.y)) == K.mul(e, b)
            && K.add(K.mul(p.x, q.y), K.mul(p.y, q.x)) == K.mul(XNumerator(c, u, v), s)
            && K.Sub(K.mul(p.y, q.y), K.mul(c.a, K.mul(p.x, q.x))) == K.mul(YNumerator(c, u, v), s)
  {
    var K, u, v, s := c.K, ToAffine(c, p), ToAffine(c, q), c.K.mul(p.z, q.z);
    Coordinates(c, p);
    Coordinates(c, q);
    MulShuffle(K, u.x, p.z, v.x, q.z);
    MulShuffle(K, u.y, p.z, v.y, q.z);
    MulShuffle(K, u.x, p.z, v.y, q.z);
    MulShuffle(K, u.y, p.z, v.x, q.z);
    var xx, yy := K.mul(u.x, v.x), K.mul(u.y, v.y);
    Assoc(K, c.d, xx, s);
    MulShuffle(K, K.mul(c.d, xx), s, yy, s);
    Distrib(K, s, K.mul(u.x, v.y), K.mul(u.y, v.x));
    Assoc(K, c.a, xx, s);
    Distrib(K, s, yy, K.neg(K.mul(c.a, xx)));
    MulNeg(K, s, K.mul(c.a, xx));
  }

  /** The denominator of a projective sum vanishes exactly when one of the affine law does. */
  lemma DenominatorIff<F(!new)>(c: Curve<F>, p: Projective<F>, q: Projective<F>)
    requires IsField(c.K) && p.z != c.K.zero && q.z != c.K.zero
    ensures Add(c, p, q).z != c.K.zero <==> Defined(c, ToAffine(c, p), ToAffine(c, q))
  {
    var K, s, e := c.K, c.K.mul(p.z, q.z), Cross(c, ToAffine(c, p), ToAffine(c, q));
    var b, plus, minus := K.mul(s, s), K.add(K.one, e), K.Sub(K.one, e);
    Intermediates(c, p, q);
    FactorOut(K, b, e);
    NonZeroProduct(K, p.z, q.z);
    NonZeroProduct(K, s, s);
    ProductIff(K, b, minus);
    ProductIff(K, b, plus);
    ProductIff(K, K.mul(b, minus), K.mul(b, plus));
  }

  /** Projective addition is affine addition wherever the affine law is defined, and falls
      to z = 0 everywhere else. */
  lemma AddIsAffine<F(!new)>(c: Curve<F>, p: Projective<F>, q: Projective<F>)
    requires IsField(c.K) && p.z != c.K.zero && q.z != c.K.zero
    ensures Add(c, p, q).z != c.K.zero <==> Defined(c, ToAffine(c, p), ToAffine(c, q))
    ensures Defined(c, ToAffine(c, p), ToAffine(c, q)) ==>
              ToAffine(c, Add(c, p, q)) == AffineAdd(c, ToAffine(c, p), ToAffine(c, q))
  {
    DenominatorIff(c, p, q);
    var K, u, v, s := c.K, ToAffine(c, p), ToAffine(c, q), c.K.mul(p.z, q.z);
    if Defined(c, u, v) {
      var b, e := K.mul(s, s), Cross(c, u, v);
      var plus, minus := K.add(K.one, e), K.Sub(K.one, e);
      var xn, yn := XNumerator(c, u, v), YNumerator(c, u, v);
      Intermediates(c, p, q);
      FactorOut(K, b, e);
      CrossTerms(K, p.x, p.y, q.x, q.y);
      var f, g := K.mul(b, minus), K.mul(b, plus);
      var r := Add(c, p, q);
      assert r.x == K.mul(K.mul(s, f), K.mul(xn, s));
      assert r.y == K.mul(K.mul(s, g), K.mul(yn, s));
      RegroupX(K, s, f, xn, plus);
      RegroupY(K, s, g, yn, minus);
      Quotient(K, r.x, r.z, xn, plus);
      Quotient(K, r.y, r.z, yn, minus);
    }
  }

  // ----- what a vanished denominator leads to -----

  /** A point that stands for (0, 0), whatever it is added to. */
  ghost predicate Dead<F>(c: Curve<F>, p: Projective<F>) {
    p.z == c.K.zero || (p.x == c.K.zero && p.y == c.K.zero)
  }

  lemma DeadIsZero<F(!new)>(c: Curve<F>, p: Projective<F>)
    requires IsField(c.K) && Dead(c, p)
    ensures ToAffine(c, p) == Point(c.K.zero, c.K.zero)
  {
    MulZero(c.K, c.K.inv(p.z));
  }

  lemma DeadStays<F(!new)>(c: Curve<F>, p: Projective<F>, q: Projective<F>)
    requires IsField(c.K) && (Dead(c, p) || Dead(c, q))
    ensures Dead(c, Add(c, p, q))
  {
    if p.z == c.K.zero || q.z == c.K.zero {
      DeadByZ(c, p, q);
    } else {
      DeadByXY(c, p, q);
    }
  }

  lemma DeadByZ<F(!new)>(c: Curve<F>, p: Projective<F>, q: Projective<F>)
    requires IsField(c.K) && (p.z == c.K.zero || q.z == c.K.zero)
    ensures Dead(c, Add(c, p, q))
  {
    forall a {
      MulZero(c.K, a);
    }
  }

  lemma DeadByXY<F(!new)>(c: Curve<F>, p: Projective<F>, q: Projective<F>)
    requires IsField(c.K)
    requires (p.x == c.K.zero && p.y == c.K.zero) || (q.x == c.K.zero && q.y == c.K.zero)
    ensures Dead(c, Add(c, p, q))
  {
    var K := c.K;
    forall a {
      MulZero(K, a);
    }
    Units(K, K.zero);
    Units(K, K.neg(K.zero));
  }

  // ----- double and add -----

  /** Running sum and running double after the first `i` bits, by the affine law. */
  ghost function CurveRun<F>(c: Curve<F>, p: Point<F>, bits: seq<bool>, i: nat): (Point<F>, Point<F>)
    requires i <= |bits|
  {
    if i == 0 then (Neutral(c), p) else CurveTurn(c, CurveRun(c, p, bits, i - 1), bits[i - 1])
  }

  ghost function CurveTurn<F>(c: Curve<F>, state: (Point<F>, Point<F>), bit: bool): (Point<F>, Point<F>) {
    (if bit then AffineAdd(c, state.0, state.1) else state.0, AffineAdd(c, state.1, state.1))
  }

  /** No denominator vanishes in the first `i` doublings. */
  ghost predicate DoublingsDefined<F>(c: Curve<F>, p: Point<F>, bits: seq<bool>, i: nat)
    requires i <= |bits|
  {
    i == 0 || (DoublingsDefined(c, p, bits, i - 1)
               && Defined(c, CurveRun(c, p, bits, i - 1).1, CurveRun(c, p, bits, i - 1).1))
  }

  /** No denominator vanishes on the way to the sum over the first `i` bits: neither in an
      addition to it nor in a doubling before that. */
  ghost predicate SumDefined<F>(c: Curve<F>, p: Point<F>, bits: seq<bool>, i: nat)
    requires i <= |bits|
  {
    i == 0
    || (&& SumDefined(c, p, bits, i - 1)
        && (bits[i - 1] ==>
              DoublingsDefined(c, p, bits, i - 1)
              && Defined(c, CurveRun(c, p, bits, i - 1).0, CurveRun(c, p, bits, i - 1).1)))
  }

  lemma ProjectiveBack<F(!new)>(c: Curve<F>, p: Point<F>)
    requires IsField(c.K)
    ensures ToProjective(c, p).z != c.K.zero && ToAffine(c, ToProjective(c, p)) == p
  {
    Inverse(c.K, c.K.one);
    Units(c.K, c.K.inv(c.K.one));
    Units(c.K, p.x);
    Units(c.K, p.y);
  }

  /** The projective point stands for `u`, or for nothing any more. */
  ghost predicate StandsFor<F>(c: Curve<F>, p: Projective<F>, alive: bool, u: Point<F>) {
    if alive then p.z != c.K.zero && ToAffine(c, p) == u else Dead(c, p)
  }

  lemma AddStands<F(!new)>(c: Curve<F>, p: Projective<F>, q: Projective<F>, s: bool, t: bool, u: Point<F>, v: Point<F>)
    requires IsField(c.K) && StandsFor(c, p, s, u) && StandsFor(c, q, t, v)
    ensures StandsFor(c, Add(c, p, q), s && t && Defined(c, u, v), AffineAdd(c, u, v))
  {
    if s && t {
      AddIsAffine(c, p, q);
    } else {
      DeadStays(c, p, q);
    }
  }

  /** Whether sum and double still stand for a point, after one more turn. */
  ghost function AliveTurn<F>(c: Curve<F>, alive: (bool, bool), state: (Point<F>, Point<F>), bit: bool): (bool, bool) {
    (alive.0 && (bit ==> alive.1 && Defined(c, state.0, state.1)), alive.1 && Defined(c, state.1, state.1))
  }

  /** The affine run after `i` bits, and whether sum and double are defined that far. */
  ghost predicate RunAt<F>(c: Curve<F>, p: Point<F>, bits: seq<bool>, i: nat, alive: (bool, bool),
                           state: (Point<F>, Point<F>)) {
    && i <= |bits| && Same(state, CurveRun(c, p, bits, i))
    && Same(alive.0, SumDefined(c, p, bits, i)) && Same(alive.1, DoublingsDefined(c, p, bits, i))
  }

  lemma RunTurn<F>(c: Curve<F>, p: Point<F>, bits: seq<bool>, i: nat, alive: (bool, bool), state: (Point<F>, Point<F>))
    requires RunAt(c, p, bits, i, alive, state) && i < |bits|
    ensures RunAt(c, p, bits, i + 1, AliveTurn(c, alive, state, bits[i]), CurveTurn(c, state, bits[i]))
  {
  }

  /** One turn of the loop in `mul_scalar`. */
  method DoubleAndAdd<F(!new)>(c: Curve<F>, r: Projective<F>, exp: Projective<F>, bit: bool,
                               ghost alive: (bool, bool), ghost state: (Point<F>, Point<F>))
    returns (r': Projective<F>, exp': Projective<F>)
    requires IsField(c.K) && StandsFor(c, r, alive.0, state.0) && StandsFor(c, exp, alive.1, state.1)
    ensures StandsFor(c, r', AliveTurn(c, alive, state, bit).0, CurveTurn(c, state, bit).0)
    ensures StandsFor(c, exp', AliveTurn(c, alive, state, bit).1, CurveTurn(c, state, bit).1)
  {
    r' := r;
    if bit {
      r' := Add(c, r, exp);
      AddStands(c, r, exp, alive.0, alive.1, state.0, state.1);
    }
    exp' := Add(c, exp, exp);
    AddStands(c, exp, exp, alive.1, alive.1, state.1, state.1);
  }

  /** `mul_scalar`, on the magnitude of the scalar: the affine double-and-add, or (0, 0)
      when a denominator on the way to the sum vanishes. */
  method MulScalar<F(!new, ==)>(c: Curve<F>, p: Point<F>, n: nat) returns (result: Point<F>)
    requires IsField(c.K)
    ensures result == if SumDefined(c, p, BitsOf(n), BitLength(n)) then CurveRun(c, p, BitsOf(n), BitLength(n)).0
                      else Point(c.K.zero, c.K.zero)
    ensures OnCurve(c, p) && SumDefined(c, p, BitsOf(n), BitLength(n)) ==> OnCurve(c, result)
    ensures OnCurve(c, p) && Complete(c) ==> SumDefined(c, p, BitsOf(n), BitLength(n))
  {
    var r := Projective(c.K.zero, c.K.one, c.K.one);
    var exp := ToProjective(c, p);
    var bytes, bits := LeBytes(n), BitLength(n);
    ghost var digits := BitsOf(n);
    TestBitsAreBits(n);
    ProjectiveBack(c, p);
    ProjectiveBack(c, Neutral(c));
    ghost var alive, state := (true, true), (Neutral(c), p);
    for i := 0 to bits
      invariant RunAt(c, p, digits, i, alive, state)
      invariant StandsFor(c, r, alive.0, state.0) && StandsFor(c, exp, alive.1, state.1)
    {
      r, exp := DoubleAndAdd(c, r, exp, TestBit(bytes, i), alive, state);
      RunTurn(c, p, digits, i, alive, state);
      alive, state := AliveTurn(c, alive, state, digits[i]), CurveTurn(c, state, digits[i]);
    }
    result := ToAffine(c, r);
    if !alive.0 {
      DeadIsZero(c, r);
    }
    if OnCurve(c, p) {
      RunOnCurve(c, p, digits, bits);
    }
  }

  /** From a point of the curve the run stays on the curve as far as it is defined, and on a
      complete curve it always is. */
  lemma {:induction false} RunOnCurve<F(!new)>(c: Curve<F>, p: Point<F>, bits: seq<bool>, i: nat)
    requires IsField(c.K) && OnCurve(c, p) && i <= |bits|
    ensures SumDefined(c, p, bits, i) ==> OnCurve(c, CurveRun(c, p, bits, i).0)
    ensures DoublingsDefined(c, p, bits, i) ==> OnCurve(c, CurveRun(c, p, bits, i).1)
    ensures Complete(c) ==> SumDefined(c, p, bits, i) && DoublingsDefined(c, p, bits, i)
  {
    if i == 0 {
      NeutralOnCurve(c);
    } else {
      RunOnCurve(c, p, bits, i - 1);
      var state := CurveRun(c, p, bits, i - 1);
      TurnOnCurve(c, state.0, state.1);
      TurnOnCurve(c, state.1, state.1);
    }
  }

  lemma TurnOnCurve<F(!new)>(c: Curve<F>, p: Point<F>, q: Point<F>)
    requires IsField(c.K)
    ensures OnCurve(c, p) && OnCurve(c, q) && Defined(c, p, q) ==> OnCurve(c, AffineAdd(c, p, q))
    ensures OnCurve(c, p) && OnCurve(c, q) && Complete(c) ==> Defined(c, p, q)
  {
    if OnCurve(c, p) && OnCurve(c, q) {
      if Complete(c) {
        AlwaysDefined(c, p, q);
      }
      if Defined(c, p, q) {
        SumOnCurve(c, p, q);
      }
    }
  }

  // ----- the n-fold sum -----

  /** The affine law is defined all over `S`, stays in it and is associative there. */
  ghost predicate GroupOn<F(!new)>(c: Curve<F>, S: iset<Point<F>>) {
    && Neutral(c) in S
    && (forall p, q {:trigger At2(p, q)} :: p in S && q in S ==> Defined(c, p, q) && AffineAdd(c, p, q) in S)
    && (forall p, q, r {:trigger At3(p, q, r)} :: p in S && q in S && r in S ==>
          AffineAdd(c, AffineAdd(c, p, q), r) == AffineAdd(c, p, AffineAdd(c, q, r)))
  }

  lemma {:induction false} CurveRunIn<F(!new)>(c: Curve<F>, S: iset<Point<F>>, p: Point<F>, bits: seq<bool>, i: nat)
    requires GroupOn(c, S) && p in S && i <= |bits|
    ensures CurveRun(c, p, bits, i).0 in S && CurveRun(c, p, bits, i).1 in S
  {
    if i > 0 {
      CurveRunIn(c, S, p, bits, i - 1);
      var state := CurveRun(c, p, bits, i - 1);
      assert At2(state.0, state.1) && At2(state.1, state.1);
    }
  }

  lemma {:induction false} GroupRunDefined<F(!new)>(c: Curve<F>, S: iset<Point<F>>, p: Point<F>, bits: seq<bool>,
                                                    i: nat)
    requires GroupOn(c, S) && p in S && i <= |bits|
    ensures SumDefined(c, p, bits, i) && DoublingsDefined(c, p, bits, i)
  {
    if i > 0 {
      GroupRunDefined(c, S, p, bits, i - 1);
      CurveRunIn(c, S, p, bits, i - 1);
      var state := CurveRun(c, p, bits, i - 1);
      assert At2(state.0, state.1) && At2(state.1, state.1);
    }
  }

  /** The n-fold sum on the curve. */
  ghost function CurveTimes<F>(c: Curve<F>, p: Point<F>, n: nat): Point<F> {
    if n == 0 then Neutral(c) else AffineAdd(c, CurveTimes(c, p, n - 1), p)
  }

  ghost predicate IsLaw<F(!new)>(op: (Point<F>, Point<F>) -> Point<F>, c: Curve<F>) {
    forall p, q :: op(p, q) == AffineAdd(c, p, q)
  }

  lemma CurveMonoid<F(!new)>(c: Curve<F>, op: (Point<F>, Point<F>) -> Point<F>, S: iset<Point<F>>)
    requires IsField(c.K) && GroupOn(c, S) && IsLaw(op, c)
    ensures MonoidOn(op, Neutral(c), S)
  {
    forall p | p in S ensures op(p, Neutral(c)) == p && op(Neutral(c), p) == p {
      RightNeutral(c, p);
      AddComm(c, p, Neutral(c));
    }
    forall p, q | p in S && q in S ensures op(p, q) in S {
      assert At2(p, q);
    }
    forall p, q, r | p in S && q in S && r in S ensures op(op(p, q), r) == op(p, op(q, r)) {
      assert At3(p, q, r);
    }
  }

  lemma {:induction false} CurveRunIsRun<F(!new)>(c: Curve<F>, op: (Point<F>, Point<F>) -> Point<F>, p: Point<F>,
                                                  bits: seq<bool>, i: nat)
    requires IsLaw(op, c) && i <= |bits|
    ensures CurveRun(c, p, bits, i) == Run(op, Neutral(c), p, bits, i)
  {
    if i > 0 {
      CurveRunIsRun(c, op, p, bits, i - 1);
    }
  }

  lemma {:induction false} CurveTimesIsTimes<F(!new)>(c: Curve<F>, op: (Point<F>, Point<F>) -> Point<F>, p: Point<F>,
                                                      n: nat)
    requires IsLaw(op, c)
    ensures CurveTimes(c, p, n) == Times(op, Neutral(c), p, n)
  {
    if n > 0 {
      CurveTimesIsTimes(c, op, p, n - 1);
    }
  }

  /** On any set where the law is a group law, the affine run is the n-fold sum. */
  lemma CurveRunIsTimes<F(!new)>(c: Curve<F>, S: iset<Point<F>>, p: Point<F>, n: nat)
    requires IsField(c.K) && GroupOn(c, S) && p in S
    ensures CurveRun(c, p, BitsOf(n), BitLength(n)).0 == CurveTimes(c, p, n)
  {
    var op := (u: Point<F>, v: Point<F>) => AffineAdd(c, u, v);
    CurveMonoid(c, op, S);
    CurveRunIsRun(c, op, p, BitsOf(n), BitLength(n));
    CurveTimesIsTimes(c, op, p, n);
    RunIsTimes(op, Neutral(c), S, p, n);
  }

  /** On any set where the law is a group law, `mul_scalar` is the n-fold sum. */
  method MulScalarInGroup<F(!new, ==)>(c: Curve<F>, ghost S: iset<Point<F>>, p: Point<F>, n: nat)
    returns (result: Point<F>)
    requires IsField(c.K) && GroupOn(c, S) && p in S
    ensures result == CurveTimes(c, p, n)
  {
    GroupRunDefined(c, S, p, BitsOf(n), BitLength(n));
    CurveRunIsTimes(c, S, p, n);
    result := MulScalar(c, p, n);
  }

  /** What is known of the Edwards law and not proved here. */
  ghost predicate AssociativeOnCurve<F(!new)>(c: Curve<F>) {
    forall p, q, r {:trigger At3(p, q, r)} :: OnCurve(c, p) && OnCurve(c, q) && OnCurve(c, r) ==>
      AffineAdd(c, AffineAdd(c, p, q), r) == AffineAdd(c, p, AffineAdd(c, q, r))
  }

  /** A complete curve is closed under its law, so that associativity alone makes it a group. */
  lemma CompleteCurveIsGroup<F(!new)>(c: Curve<F>, S: iset<Point<F>>)
    requires IsField(c.K) && Complete(c) && AssociativeOnCurve(c) && forall p :: p in S <==> OnCurve(c, p)
    ensures GroupOn(c, S)
  {
    NeutralOnCurve(c);
    forall p, q | p in S && q in S ensures Defined(c, p, q) && AffineAdd(c, p, q) in S {
      AlwaysDefined(c, p, q);
      SumOnCurve(c, p, q);
    }
    forall p, q, r | p in S && q in S && r in S
      ensures AffineAdd(c, AffineAdd(c, p, q), r) == AffineAdd(c, p, AffineAdd(c, q, r))
    {
      assert At3(p, q, r);
    }
  }

  /** On a complete curve `mul_scalar` of any point of the curve is the n-fold sum, and a
      point of the curve. */
  method MulScalarOnCurve<F(!new, ==)>(c: Curve<F>, p: Point<F>, n: nat) returns (result: Point<F>)
    requires IsField(c.K) && Complete(c) && AssociativeOnCurve(c) && OnCurve(c, p)
    ensures result == CurveTimes(c, p, n) && OnCurve(c, result)
  {
    ghost var S := iset q | OnCurve(c, q);
    CompleteCurveIsGroup(c, S);
    CurveRunIsTimes(c, S, p, n);
    result := MulScalar(c, p, n);
  }
}
