/** The twisted Edwards law a x^2 + y^2 = 1 + d x^2 y^2: where it is defined, that its sums
    stay on the curve, and that every point has an inverse. */
module Edwards {
  import opened Basics
  import opened Fields
  import opened Ring

  datatype Point<F> = Point(x: F, y: F)

  /** The curve coefficients `A` and `D`, as field elements. */
  datatype Curve<!F> = Curve(K: Field<F>, a: F, d: F)

  // ----- the affine law -----

  /** d x1 x2 y1 y2 */
  function Cross<F>(c: Curve<F>, p: Point<F>, q: Point<F>): F {
    c.K.mul(c.K.mul(c.d, c.K.mul(p.x, q.x)), c.K.mul(p.y, q.y))
  }

  function XNumerator<F>(c: Curve<F>, p: Point<F>, q: Point<F>): F {
    c.K.add(c.K.mul(p.x, q.y), c.K.mul(p.y, q.x))
  }

  function YNumerator<F>(c: Curve<F>, p: Point<F>, q: Point<F>): F {
    c.K.Sub(c.K.mul(p.y, q.y), c.K.mul(c.a, c.K.mul(p.x, q.x)))
  }

  /** Neither denominator of the affine law vanishes. */
  ghost predicate Defined<F>(c: Curve<F>, p: Point<F>, q: Point<F>) {
    && c.K.add(c.K.one, Cross(c, p, q)) != c.K.zero
    && c.K.Sub(c.K.one, Cross(c, p, q)) != c.K.zero
  }

  function AffineAdd<F>(c: Curve<F>, p: Point<F>, q: Point<F>): Point<F> {
    Point(c.K.mul(XNumerator(c, p, q), c.K.inv(c.K.add(c.K.one, Cross(c, p, q)))),
          c.K.mul(YNumerator(c, p, q), c.K.inv(c.K.Sub(c.K.one, Cross(c, p, q)))))
  }

  function Neutral<F>(c: Curve<F>): Point<F> {
    Point(c.K.zero, c.K.one)
  }

  ghost predicate OnCurve<F>(c: Curve<F>, p: Point<F>) {
    c.K.add(c.K.mul(c.a, c.K.mul(p.x, p.x)), c.K.mul(p.y, p.y))
    == c.K.add(c.K.one, c.K.mul(c.d, c.K.mul(c.K.mul(p.x, p.x), c.K.mul(p.y, p.y))))
  }

  // ----- neutral, commutative, invertible -----

  /** The neutral point is neutral, by the formulas. */
  lemma RightNeutral<F(!new)>(c: Curve<F>, p: Point<F>)
    requires IsField(c.K)
    ensures AffineAdd(c, p, Neutral(c)) == p
  {
    var K := c.K;
    MulZero(K, p.x);
    MulZero(K, p.y);
    MulZero(K, c.d);
    MulZero(K, c.a);
    Units(K, p.x);
    Units(K, p.y);
    Units(K, K.zero);
    Units(K, K.one);
    Inverse(K, K.one);
    Units(K, K.inv(K.one));
    Units(K, K.neg(K.zero));
    assert Cross(c, p, Neutral(c)) == K.zero;
  }

  lemma AddComm<F(!new)>(c: Curve<F>, p: Point<F>, q: Point<F>)
    requires IsField(c.K)
    ensures AffineAdd(c, p, q) == AffineAdd(c, q, p)
  {
    var K := c.K;
    Comm(K, p.x, q.x);
    Comm(K, p.y, q.y);
    Comm(K, p.x, q.y);
    Comm(K, p.y, q.x);
    Comm(K, K.mul(p.x, q.y), K.mul(p.y, q.x));
  }

  /** Equal cross products give equal quotients. */
  lemma Quotient<F(!new)>(K: Field<F>, x: F, z: F, n: F, m: F)
    requires IsField(K) && z != K.zero && m != K.zero && K.mul(x, m) == K.mul(n, z)
    ensures K.mul(x, K.inv(z)) == K.mul(n, K.inv(m))
  {
    var zi, mi := K.inv(z), K.inv(m);
    Inverse(K, z);
    Inverse(K, m);
    // x zi == x (m mi) zi == (x m) (mi zi) == (n z) (mi zi) == (n mi) (z zi) == n mi
    Units(K, K.mul(x, zi));
    MulShuffle(K, x, zi, m, mi);
    Comm(K, zi, mi);
    MulShuffle(K, n, z, mi, zi);
    Units(K, K.mul(n, mi));
  }

  lemma ProductIff<F(!new)>(K: Field<F>, a: F, b: F)
    requires IsField(K)
    ensures K.mul(a, b) != K.zero <==> a != K.zero && b != K.zero
  {
    MulZero(K, a);
    MulZero(K, b);
    if a != K.zero && b != K.zero {
      NonZeroProduct(K, a, b);
    }
  }


  function Negated<F>(c: Curve<F>, p: Point<F>): Point<F> {
    Point(c.K.neg(p.x), p.y)
  }

  /** A point of the curve and its mirror image add up to the neutral point. */
  lemma InverseAdds<F(!new)>(c: Curve<F>, p: Point<F>)
    requires IsField(c.K) && OnCurve(c, p) && Defined(c, p, Point(c.K.neg(p.x), p.y))
    ensures AffineAdd(c, p, Point(c.K.neg(p.x), p.y)) == Point(c.K.zero, c.K.one)
  {
    var K, q := c.K, Negated(c, p);
    var xx, yy := Sq(K, p.x), Sq(K, p.y);
    MulNeg(K, p.x, p.x);
    assert K.mul(p.x, q.x) == K.neg(xx);
    // the numerator of x is x y - y x
    MulNeg(K, p.y, p.x);
    Comm(K, p.x, p.y);
    Units(K, K.mul(p.x, p.y));
    MulZero(K, K.inv(K.add(K.one, Cross(c, p, q))));
    // the numerator of y and its denominator are the two sides of the curve equation
    MulNeg(K, c.a, xx);
    NegNeg(K, K.mul(c.a, xx));
    Comm(K, yy, K.mul(c.a, xx));
    MulNeg(K, c.d, xx);
    MulNeg(K, yy, K.mul(c.d, xx));
    Assoc(K, c.d, xx, yy);
    NegNeg(K, K.mul(K.mul(c.d, xx), yy));
    Inverse(K, K.Sub(K.one, Cross(c, p, q)));
  }

  // ----- sums stay on the curve -----

  /** Two sums without a common part, put together: (t + v) with u = x + t, v + t = y. */
  lemma JoinHalves<F(!new)>(K: Field<F>, u: F, v: F, x: F, y: F, t: F)
    requires IsField(K) && u == K.add(x, t) && K.add(v, t) == y
    ensures K.add(u, v) == K.add(x, y)
  {
    Assoc(K, x, t, v);
    Comm(K, t, v);
  }

  /** x1 y2, y1 x2, y1 y2, x1 x2: the products the law is made of. */
  datatype Products<F> = Products(xy: F, yx: F, yy: F, xx: F)

  function ProductsOf<F>(K: Field<F>, p: Point<F>, q: Point<F>): Products<F> {
    Products(K.mul(p.x, q.y), K.mul(p.y, q.x), K.mul(p.y, q.y), K.mul(p.x, q.x))
  }

  /** a x^2 + y^2 */
  function Left<F>(c: Curve<F>, p: Point<F>): F {
    c.K.add(c.K.mul(c.a, Sq(c.K, p.x)), Sq(c.K, p.y))
  }

  /** d x^2 y^2 */
  function Right<F>(c: Curve<F>, p: Point<F>): F {
    c.K.mul(c.d, c.K.mul(Sq(c.K, p.x), Sq(c.K, p.y)))
  }

  /** The product common to all: (x1 y2) (y1 x2). */
  function Common<F>(K: Field<F>, p: Point<F>, q: Point<F>): F {
    K.mul(K.mul(p.x, q.y), K.mul(p.y, q.x))
  }

  lemma CommonProducts<F(!new)>(c: Curve<F>, p: Point<F>, q: Point<F>)
    requires IsField(c.K)
    ensures var K, w := c.K, Common(c.K, p, q);
            && K.mul(K.mul(p.y, q.y), K.mul(p.x, q.x)) == w
            && K.mul(K.mul(p.x, p.y), K.mul(q.x, q.y)) == w
            && K.mul(K.mul(p.y, q.y), K.mul(c.a, K.mul(p.x, q.x))) == K.mul(c.a, w)
            && Cross(c, p, q) == K.mul(c.d, w)
  {
    var K, xx, yy := c.K, c.K.mul(p.x, q.x), c.K.mul(p.y, q.y);
    Four(K, p.y, q.y, p.x, q.x);
    Comm(K, K.mul(p.y, q.x), K.mul(p.x, q.y));
    Comm(K, K.mul(p.y, q.x), K.mul(q.y, p.x));
    Comm(K, p.x, q.y);
    Four(K, p.x, p.y, q.x, q.y);
    Comm(K, q.x, q.y);
    ThreeFactors(K, yy, c.a, xx);
    Assoc(K, c.d, xx, yy);
    Comm(K, xx, yy);
  }

  lemma ThreeFactors<F(!new)>(K: Field<F>, u: F, v: F, w: F)
    requires IsField(K)
    ensures K.mul(u, K.mul(v, w)) == K.mul(v, K.mul(u, w))
  {
    Assoc(K, u, v, w);
    Assoc(K, v, u, w);
    Comm(K, u, v);
  }

  /** a XNumerator^2 */
  function U<F>(c: Curve<F>, p: Point<F>, q: Point<F>): F {
    c.K.mul(c.a, Sq(c.K, XNumerator(c, p, q)))
  }

  /** YNumerator^2 */
  function V<F>(c: Curve<F>, p: Point<F>, q: Point<F>): F {
    Sq(c.K, YNumerator(c, p, q))
  }

  /** The left sides multiply: a Nx^2 + Ny^2 == (a x1^2 + y1^2) (a x2^2 + y2^2). */
  lemma LeftsMultiply<F(!new)>(c: Curve<F>, p: Point<F>, q: Point<F>)
    requires IsField(c.K)
    ensures c.K.add(U(c, p, q), V(c, p, q)) == c.K.mul(Left(c, p), Left(c, q))
  {
    var K, m := c.K, ProductsOf(c.K, p, q);
    var aw, axx := K.mul(c.a, Common(K, p, q)), K.mul(c.a, m.xx);
    CommonProducts(c, p, q);
    SqSum(K, m.xy, m.yx);
    Distrib(K, c.a, K.add(Sq(K, m.xy), Sq(K, m.yx)), Twice(K, Common(K, p, q)));
    MulTwice(K, c.a, Common(K, p, q));
    Distrib(K, c.a, Sq(K, m.xy), Sq(K, m.yx));
    SqDiff(K, m.yy, axx);
    var x := K.add(K.mul(c.a, Sq(K, m.xy)), K.mul(c.a, Sq(K, m.yx)));
    var y := K.add(Sq(K, m.yy), Sq(K, axx));
    JoinHalves(K, U(c, p, q), V(c, p, q), x, y, Twice(K, aw));
    LeftsFoiled(c, p, q);
    Rotate(K, Sq(K, axx), K.mul(c.a, Sq(K, m.xy)), K.mul(c.a, Sq(K, m.yx)), Sq(K, m.yy));
  }

  /** (a + b) + (c + d) == (b + c) + (d + a) */
  lemma Rotate<F(!new)>(K: Field<F>, a: F, b: F, c: F, d: F)
    requires IsField(K)
    ensures K.add(K.add(a, b), K.add(c, d)) == K.add(K.add(b, c), K.add(d, a))
  {
    Comm(K, a, b);
    Assoc(K, b, a, K.add(c, d));
    Comm(K, a, K.add(c, d));
    Assoc(K, c, d, a);
    Assoc(K, b, c, K.add(d, a));
  }

  lemma LeftsFoiled<F(!new)>(c: Curve<F>, p: Point<F>, q: Point<F>)
    requires IsField(c.K)
    ensures var K, m := c.K, ProductsOf(c.K, p, q);
            K.mul(Left(c, p), Left(c, q))
            == K.add(K.add(Sq(K, K.mul(c.a, m.xx)), K.mul(c.a, Sq(K, m.xy))),
                     K.add(K.mul(c.a, Sq(K, m.yx)), Sq(K, m.yy)))
  {
    var K := c.K;
    var x1, y1, x2, y2 := Sq(K, p.x), Sq(K, p.y), Sq(K, q.x), Sq(K, q.y);
    Foil(K, K.mul(c.a, x1), y1, K.mul(c.a, x2), y2);
    SqMul(K, p.x, q.x);
    SqMul(K, p.x, q.y);
    SqMul(K, p.y, q.x);
    SqMul(K, p.y, q.y);
    SqMul(K, c.a, K.mul(p.x, q.x));
    MulShuffle(K, c.a, x1, c.a, x2);
    Assoc(K, c.a, x1, y2);
    ThreeFactors(K, y1, c.a, x2);
  }

  /** Nx (y1 y2 + a x1 x2) splits into the left sides times x2 y2 and x1 y1. */
  lemma NumeratorSplits<F(!new)>(c: Curve<F>, p: Point<F>, q: Point<F>)
    requires IsField(c.K)
    ensures var K, m := c.K, ProductsOf(c.K, p, q);
            K.mul(XNumerator(c, p, q), K.add(m.yy, K.mul(c.a, m.xx)))
            == K.add(K.mul(Left(c, p), K.mul(q.x, q.y)), K.mul(Left(c, q), K.mul(p.x, p.y)))
  {
    var K, m := c.K, ProductsOf(c.K, p, q);
    var axx := K.mul(c.a, m.xx);
    Foil(K, m.xy, m.yx, m.yy, axx);
    LeftTimes(c, p, q);
    LeftTimes(c, q, p);
    Comm(K, q.x, p.x);
    Comm(K, q.y, p.y);
    Comm(K, q.x, p.y);
    Comm(K, q.y, p.x);
    Rotate(K, K.mul(m.xy, m.yy), K.mul(m.xy, axx), K.mul(m.yx, m.yy), K.mul(m.yx, axx));
  }

  /** (a x1^2 + y1^2) x2 y2 == (x1 y2) (a x1 x2) + (y1 x2) (y1 y2) */
  lemma LeftTimes<F(!new)>(c: Curve<F>, p: Point<F>, q: Point<F>)
    requires IsField(c.K)
    ensures var K, m := c.K, ProductsOf(c.K, p, q);
            K.mul(Left(c, p), K.mul(q.x, q.y)) == K.add(K.mul(m.xy, K.mul(c.a, m.xx)), K.mul(m.yx, m.yy))
  {
    var K, m := c.K, ProductsOf(c.K, p, q);
    var x1, y1, xy2 := Sq(K, p.x), Sq(K, p.y), K.mul(q.x, q.y);
    Distrib(K, xy2, K.mul(c.a, x1), y1);
    Assoc(K, c.a, x1, xy2);
    MulShuffle(K, p.x, p.x, q.x, q.y);
    ThreeFactors(K, m.xy, c.a, m.xx);
    Comm(K, m.xx, m.xy);
    MulShuffle(K, p.y, p.y, q.x, q.y);
  }

  /** With L = y1 y2 + a x1 x2: L^2 == Ny^2 + 4 a w. */
  lemma SumAndDifference<F(!new)>(c: Curve<F>, p: Point<F>, q: Point<F>)
    requires IsField(c.K)
    ensures var K, m, aw := c.K, ProductsOf(c.K, p, q), c.K.mul(c.a, Common(c.K, p, q));
            Sq(K, K.add(m.yy, K.mul(c.a, m.xx))) == K.add(V(c, p, q), K.add(Twice(K, aw), Twice(K, aw)))
  {
    var K, m := c.K, ProductsOf(c.K, p, q);
    var axx, aw := K.mul(c.a, m.xx), K.mul(c.a, Common(K, p, q));
    CommonProducts(c, p, q);
    SqSum(K, m.yy, axx);
    SqDiff(K, m.yy, axx);
    Assoc(K, V(c, p, q), Twice(K, aw), Twice(K, aw));
  }

  /** Nx^2 Ny^2 + 2 w U == (e1 x2 y2)^2 + (e2 x1 y1)^2 + 2 w V */
  lemma NumeratorsMultiply<F(!new)>(c: Curve<F>, p: Point<F>, q: Point<F>)
    requires IsField(c.K)
    ensures var K, w := c.K, Common(c.K, p, q);
            K.add(K.mul(Sq(K, XNumerator(c, p, q)), V(c, p, q)), Twice(K, K.mul(w, U(c, p, q))))
            == K.add(K.add(Sq(K, K.mul(Left(c, p), K.mul(q.x, q.y))), Sq(K, K.mul(Left(c, q), K.mul(p.x, p.y)))),
                     Twice(K, K.mul(w, V(c, p, q))))
  {
    var K, w, m := c.K, Common(c.K, p, q), ProductsOf(c.K, p, q);
    var nx, l := XNumerator(c, p, q), K.add(m.yy, K.mul(c.a, m.xx));
    var s, t := K.mul(Left(c, p), K.mul(q.x, q.y)), K.mul(Left(c, q), K.mul(p.x, p.y));
    var nn, v, wu, wv := Sq(K, nx), V(c, p, q), K.mul(w, U(c, p, q)), K.mul(w, V(c, p, q));
    NumeratorSplits(c, p, q);
    SqMul(K, nx, l);
    SqSum(K, s, t);
    LeftsCross(c, p, q);
    TwiceSum(K, wu, wv);
    SumAndDifference(c, p, q);
    var two := Twice(K, K.mul(c.a, w));
    Distrib(K, nn, v, K.add(two, two));
    Distrib(K, nn, two, two);
    MulTwice(K, nn, K.mul(c.a, w));
    ThreeFactors(K, nn, c.a, w);
    Assoc(K, c.a, nn, w);
    Comm(K, U(c, p, q), w);
    // nn v + (2 wu + 2 wu) == (s^2 + t^2) + (2 wu + 2 wv)
    DropOne(K, K.mul(nn, v), Twice(K, wu), K.add(Sq(K, s), Sq(K, t)), Twice(K, wv));
  }

  /** x + (u + u) == y + (u + v) gives x + u == y + v */
  lemma DropOne<F(!new)>(K: Field<F>, x: F, u: F, y: F, v: F)
    requires IsField(K) && K.add(x, K.add(u, u)) == K.add(y, K.add(u, v))
    ensures K.add(x, u) == K.add(y, v)
  {
    Assoc(K, x, u, u);
    Comm(K, u, v);
    Assoc(K, y, v, u);
    AddCancelRight(K, u, K.add(x, u), K.add(y, v));
  }

  /** (e1 x2 y2) (e2 x1 y1) == w U + w V */
  lemma LeftsCross<F(!new)>(c: Curve<F>, p: Point<F>, q: Point<F>)
    requires IsField(c.K)
    ensures var K, w := c.K, Common(c.K, p, q);
            K.mul(K.mul(Left(c, p), K.mul(q.x, q.y)), K.mul(Left(c, q), K.mul(p.x, p.y)))
            == K.add(K.mul(w, U(c, p, q)), K.mul(w, V(c, p, q)))
  {
    var K, w := c.K, Common(c.K, p, q);
    MulShuffle(K, Left(c, p), K.mul(q.x, q.y), Left(c, q), K.mul(p.x, p.y));
    CommonProducts(c, p, q);
    Comm(K, K.mul(q.x, q.y), K.mul(p.x, p.y));
    LeftsMultiply(c, p, q);
    Comm(K, K.mul(Left(c, p), Left(c, q)), w);
    Distrib(K, w, U(c, p, q), V(c, p, q));
  }

  /** The same with d: d Nx^2 Ny^2 + 2 C U == (e1^2 k2 + e2^2 k1) + 2 C V, C the cross product. */
  lemma RightOfSum<F(!new)>(c: Curve<F>, p: Point<F>, q: Point<F>)
    requires IsField(c.K)
    ensures var K, e := c.K, Cross(c, p, q);
            K.add(K.mul(c.d, K.mul(Sq(K, XNumerator(c, p, q)), V(c, p, q))), Twice(K, K.mul(e, U(c, p, q))))
            == K.add(K.add(K.mul(Sq(K, Left(c, p)), Right(c, q)), K.mul(Sq(K, Left(c, q)), Right(c, p))),
                     Twice(K, K.mul(e, V(c, p, q))))
  {
    var K, w := c.K, Common(c.K, p, q);
    var s, t := K.mul(Left(c, p), K.mul(q.x, q.y)), K.mul(Left(c, q), K.mul(p.x, p.y));
    var nv, wu, wv := K.mul(Sq(K, XNumerator(c, p, q)), V(c, p, q)), K.mul(w, U(c, p, q)), K.mul(w, V(c, p, q));
    NumeratorsMultiply(c, p, q);
    CommonProducts(c, p, q);
    Distrib(K, c.d, nv, Twice(K, wu));
    Distrib(K, c.d, K.add(Sq(K, s), Sq(K, t)), Twice(K, wv));
    Distrib(K, c.d, Sq(K, s), Sq(K, t));
    MulTwice(K, c.d, wu);
    MulTwice(K, c.d, wv);
    Assoc(K, c.d, w, U(c, p, q));
    Assoc(K, c.d, w, V(c, p, q));
    DTimesSquare(c, p, q);
    DTimesSquare(c, q, p);
  }

  /** d (e1 x2 y2)^2 == e1^2 k2 */
  lemma DTimesSquare<F(!new)>(c: Curve<F>, p: Point<F>, q: Point<F>)
    requires IsField(c.K)
    ensures c.K.mul(c.d, Sq(c.K, c.K.mul(Left(c, p), c.K.mul(q.x, q.y)))) == c.K.mul(Sq(c.K, Left(c, p)), Right(c, q))
  {
    var K := c.K;
    SqMul(K, Left(c, p), K.mul(q.x, q.y));
    SqMul(K, q.x, q.y);
    ThreeFactors(K, c.d, Sq(K, Left(c, p)), K.mul(Sq(K, q.x), Sq(K, q.y)));
  }

  /** k1 k2 == C^2 */
  lemma RightsMultiply<F(!new)>(c: Curve<F>, p: Point<F>, q: Point<F>)
    requires IsField(c.K)
    ensures c.K.mul(Right(c, p), Right(c, q)) == Sq(c.K, Cross(c, p, q))
  {
    var K, w := c.K, Common(c.K, p, q);
    var u, v := K.mul(Sq(K, p.x), Sq(K, p.y)), K.mul(Sq(K, q.x), Sq(K, q.y));
    MulShuffle(K, c.d, u, c.d, v);
    SqMul(K, p.x, p.y);
    SqMul(K, q.x, q.y);
    SqMul(K, K.mul(p.x, p.y), K.mul(q.x, q.y));
    CommonProducts(c, p, q);
    SqMul(K, c.d, w);
  }

  /** U (1 - C)^2 + V (1 + C)^2 + 2 C U == (U + V) (1 + C^2) + 2 C V */
  lemma LeftOfSum<F(!new)>(K: Field<F>, u: F, v: F, e: F)
    requires IsField(K)
    ensures K.add(K.add(K.mul(u, Sq(K, K.Sub(K.one, e))), K.mul(v, Sq(K, K.add(K.one, e)))), Twice(K, K.mul(e, u)))
            == K.add(K.mul(K.add(u, v), K.add(K.one, Sq(K, e))), Twice(K, K.mul(e, v)))
  {
    var g, minus, plus := K.add(K.one, Sq(K, e)), Sq(K, K.Sub(K.one, e)), Sq(K, K.add(K.one, e));
    Squares(K, e);
    var eu, ev := Twice(K, K.mul(e, u)), Twice(K, K.mul(e, v));
    MulTwice(K, u, e);
    MulTwice(K, v, e);
    Comm(K, u, e);
    Comm(K, v, e);
    Distrib(K, u, minus, Twice(K, e));
    Distrib(K, v, g, Twice(K, e));
    Distrib(K, g, u, v);
    // (u minus + v plus) + eu == (u minus + eu) + v plus
    Assoc(K, K.mul(u, minus), K.mul(v, plus), eu);
    Comm(K, K.mul(v, plus), eu);
    Assoc(K, K.mul(u, minus), eu, K.mul(v, plus));
    Assoc(K, K.mul(u, g), K.mul(v, g), ev);
  }

  /** (1 - e)^2 + 2 e == 1 + e^2 and (1 + e)^2 == (1 + e^2) + 2 e */
  lemma Squares<F(!new)>(K: Field<F>, e: F)
    requires IsField(K)
    ensures K.add(Sq(K, K.Sub(K.one, e)), Twice(K, e)) == K.add(K.one, Sq(K, e))
    ensures Sq(K, K.add(K.one, e)) == K.add(K.add(K.one, Sq(K, e)), Twice(K, e))
  {
    SqSum(K, K.one, e);
    SqDiff(K, K.one, e);
    Units(K, e);
    Units(K, K.one);
  }

  /** (1 + e^2)^2 == ((1 + e) (1 - e))^2 + 4 e^2 */
  lemma SquareOfSquares<F(!new)>(K: Field<F>, e: F)
    requires IsField(K)
    ensures Sq(K, K.add(K.one, Sq(K, e)))
            == K.add(Sq(K, K.mul(K.add(K.one, e), K.Sub(K.one, e))), Twice(K, Twice(K, Sq(K, e))))
  {
    var g, minus, plus, ee := K.add(K.one, Sq(K, e)), Sq(K, K.Sub(K.one, e)), Sq(K, K.add(K.one, e)), Twice(K, e);
    Squares(K, e);
    SqMul(K, K.add(K.one, e), K.Sub(K.one, e));
    // g g == (minus + ee) g == minus g + ee (minus + ee) == (g + ee) minus + ee ee
    Distrib(K, g, minus, ee);
    Distrib(K, ee, minus, ee);
    Distrib(K, minus, g, ee);
    Comm(K, ee, minus);
    Comm(K, minus, g);
    Comm(K, minus, plus);
    Assoc(K, K.mul(g, minus), K.mul(ee, minus), Sq(K, ee));
    MulTwice(K, ee, e);
    Comm(K, ee, e);
    MulTwice(K, e, e);
  }

  /** With e1 = 1 + k1, e2 = 1 + k2 and k1 k2 = C^2:
      e1 e2 (1 + C^2) == ((1 + C) (1 - C))^2 + (e1^2 k2 + e2^2 k1). */
  lemma CurveProduct<F(!new)>(K: Field<F>, k1: F, k2: F, e: F)
    requires IsField(K) && K.mul(k1, k2) == Sq(K, e)
    ensures var e1, e2 := K.add(K.one, k1), K.add(K.one, k2);
            K.mul(K.mul(e1, e2), K.add(K.one, Sq(K, e)))
            == K.add(Sq(K, K.mul(K.add(K.one, e), K.Sub(K.one, e))),
                     K.add(K.mul(Sq(K, e1), k2), K.mul(Sq(K, e2), k1)))
  {
    var c2, g, k := Sq(K, e), K.add(K.one, Sq(K, e)), K.add(k1, k2);
    var four := Twice(K, Twice(K, c2));
    // e1 e2 == g + k
    Foil(K, K.one, k1, K.one, k2);
    Units(K, K.one);
    Units(K, k1);
    Units(K, k2);
    OneAndProducts(K, k1, k2, c2);
    Distrib(K, g, g, k);
    SquareOfSquares(K, e);
    Comm(K, k1, k2);
    SquareTimes(K, k1, k2, c2);
    SquareTimes(K, k2, k1, c2);
    CollectTerms(K, k1, k2, c2);
    var d := Sq(K, K.mul(K.add(K.one, e), K.Sub(K.one, e)));
    Assoc(K, d, four, K.mul(k, g));
    Comm(K, four, K.mul(k, g));
  }

  /** (1 + k2) + (k1 + c) == (1 + c) + (k1 + k2) */
  lemma OneAndProducts<F(!new)>(K: Field<F>, k1: F, k2: F, c: F)
    requires IsField(K)
    ensures K.add(K.add(K.one, k2), K.add(k1, c)) == K.add(K.add(K.one, c), K.add(k1, k2))
  {
    Comm(K, k1, c);
    AddShuffle(K, K.one, k2, c, k1);
    Comm(K, k2, k1);
  }

  /** (1 + k1)^2 k2 == (k2 + k1 c) + 2 c for c = k1 k2 */
  lemma SquareTimes<F(!new)>(K: Field<F>, k1: F, k2: F, c: F)
    requires IsField(K) && K.mul(k1, k2) == c
    ensures K.mul(Sq(K, K.add(K.one, k1)), k2) == K.add(K.add(k2, K.mul(k1, c)), Twice(K, c))
  {
    SqSum(K, K.one, k1);
    Units(K, K.one);
    Units(K, k1);
    Units(K, k2);
    var s := K.add(K.one, Sq(K, k1));
    Distrib(K, k2, s, Twice(K, k1));
    Distrib(K, k2, K.one, Sq(K, k1));
    Assoc(K, k1, k1, k2);
    MulTwice(K, k2, k1);
    Comm(K, Twice(K, k1), k2);
    Comm(K, k1, k2);
  }

  /** The two together: (k1 + k2) (1 + c) + 4 c. */
  lemma CollectTerms<F(!new)>(K: Field<F>, k1: F, k2: F, c: F)
    requires IsField(K)
    ensures K.add(K.add(K.add(k2, K.mul(k1, c)), Twice(K, c)), K.add(K.add(k1, K.mul(k2, c)), Twice(K, c)))
            == K.add(K.mul(K.add(k1, k2), K.add(K.one, c)), Twice(K, Twice(K, c)))
  {
    var x, y := K.add(k2, K.mul(k1, c)), K.add(k1, K.mul(k2, c));
    AddShuffle(K, x, Twice(K, c), y, Twice(K, c));
    Foil(K, k1, k2, K.one, c);
    Units(K, k1);
    Units(K, k2);
    // (k2 + k1 c) + (k1 + k2 c) == (k1 + k1 c) + (k2 + k2 c)
    Comm(K, k2, K.mul(k1, c));
    Comm(K, k1, K.mul(k2, c));
    AddShuffle(K, K.mul(k1, c), k2, K.mul(k2, c), k1);
    AddShuffle(K, k1, K.mul(k1, c), k2, K.mul(k2, c));
    Comm(K, K.add(K.mul(k1, c), K.mul(k2, c)), K.add(k2, k1));
    Comm(K, k2, k1);
  }

  /** The curve equation of the sum, before the denominators are divided out. */
  lemma SumEquation<F(!new)>(c: Curve<F>, p: Point<F>, q: Point<F>)
    requires IsField(c.K) && OnCurve(c, p) && OnCurve(c, q)
    ensures var K, e := c.K, Cross(c, p, q);
            var plus, minus := K.add(K.one, e), K.Sub(K.one, e);
            K.add(K.mul(U(c, p, q), Sq(K, minus)), K.mul(V(c, p, q), Sq(K, plus)))
            == K.add(Sq(K, K.mul(plus, minus)), K.mul(c.d, K.mul(Sq(K, XNumerator(c, p, q)), V(c, p, q))))
  {
    var K, e, u, v := c.K, Cross(c, p, q), U(c, p, q), V(c, p, q);
    var plus, minus := K.add(K.one, e), K.Sub(K.one, e);
    assert Left(c, p) == K.add(K.one, Right(c, p)) && Left(c, q) == K.add(K.one, Right(c, q));
    LeftOfSum(K, u, v, e);
    LeftsMultiply(c, p, q);
    RightsMultiply(c, p, q);
    CurveProduct(K, Right(c, p), Right(c, q), e);
    RightOfSum(c, p, q);
    var lhs := K.add(K.mul(u, Sq(K, minus)), K.mul(v, Sq(K, plus)));
    var d, r := Sq(K, K.mul(plus, minus)), K.mul(c.d, K.mul(Sq(K, XNumerator(c, p, q)), v));
    var s := K.add(K.mul(Sq(K, Left(c, p)), Right(c, q)), K.mul(Sq(K, Left(c, q)), Right(c, p)));
    var eu, ev := Twice(K, K.mul(e, u)), Twice(K, K.mul(e, v));
    Assoc(K, d, s, ev);
    Assoc(K, d, r, eu);
    AddCancelRight(K, eu, lhs, K.add(d, r));
  }

  /** Quotients that satisfy the equation once multiplied out are on the curve. */
  lemma DividedOut<F(!new)>(c: Curve<F>, nx: F, ny: F, plus: F, minus: F)
    requires IsField(c.K) && plus != c.K.zero && minus != c.K.zero
    requires var K := c.K;
             K.add(K.mul(K.mul(c.a, Sq(K, nx)), Sq(K, minus)), K.mul(Sq(K, ny), Sq(K, plus)))
             == K.add(Sq(K, K.mul(plus, minus)), K.mul(c.d, K.mul(Sq(K, nx), Sq(K, ny))))
    ensures OnCurve(c, Point(c.K.mul(nx, c.K.inv(plus)), c.K.mul(ny, c.K.inv(minus))))
  {
    var K := c.K;
    var x, y := K.mul(nx, K.inv(plus)), K.mul(ny, K.inv(minus));
    var xx, yy, pp, mm := Sq(K, x), Sq(K, y), Sq(K, plus), Sq(K, minus);
    var all := Sq(K, K.mul(plus, minus));
    QuotientSquare(K, nx, plus);
    QuotientSquare(K, ny, minus);
    SqMul(K, plus, minus);
    // a xx all == (a nx^2) mm, yy all == ny^2 pp, d (xx yy) all == d (nx^2 ny^2)
    Assoc(K, c.a, xx, all);
    Assoc(K, xx, pp, mm);
    Assoc(K, c.a, Sq(K, nx), mm);
    Comm(K, pp, mm);
    Assoc(K, yy, mm, pp);
    Distrib(K, all, K.mul(c.a, xx), yy);
    Assoc(K, c.d, K.mul(xx, yy), all);
    MulShuffle(K, xx, yy, pp, mm);
    Distrib(K, all, K.one, K.mul(c.d, K.mul(xx, yy)));
    Units(K, all);
    NonZeroProduct(K, plus, minus);
    NonZeroProduct(K, K.mul(plus, minus), K.mul(plus, minus));
    MulCancel(K, all, K.add(K.mul(c.a, xx), yy), K.add(K.one, K.mul(c.d, K.mul(xx, yy))));
  }

  /** (n / m)^2 m^2 == n^2 */
  lemma QuotientSquare<F(!new)>(K: Field<F>, n: F, m: F)
    requires IsField(K) && m != K.zero
    ensures K.mul(Sq(K, K.mul(n, K.inv(m))), Sq(K, m)) == Sq(K, n)
  {
    Inverse(K, m);
    Assoc(K, n, K.inv(m), m);
    Units(K, n);
    SqMul(K, K.mul(n, K.inv(m)), m);
  }

  /** Where the law is defined, the sum of two points of the curve is on the curve. */
  lemma SumOnCurve<F(!new)>(c: Curve<F>, p: Point<F>, q: Point<F>)
    requires IsField(c.K) && OnCurve(c, p) && OnCurve(c, q) && Defined(c, p, q)
    ensures OnCurve(c, AffineAdd(c, p, q))
  {
    var K, e := c.K, Cross(c, p, q);
    SumEquation(c, p, q);
    DividedOut(c, XNumerator(c, p, q), YNumerator(c, p, q), K.add(K.one, e), K.Sub(K.one, e));
  }

  // ----- no denominator vanishes on a complete curve -----

  ghost predicate IsSquare<F(!new)>(K: Field<F>, a: F) {
    exists r :: Sq(K, r) == a
  }

  /** `a` is a square, `d` is none, and 2 is not 0: so it is for the coefficients of
      BabyJubJub in its field. */
  ghost predicate Complete<F(!new)>(c: Curve<F>) {
    Twice(c.K, c.K.one) != c.K.zero && IsSquare(c.K, c.a) && !IsSquare(c.K, c.d)
  }

  /** (r x1 + C y1)^2 == k1 (r x2 + y2)^2 for r^2 = a and C^2 = 1 */
  lemma SquaresRelate<F(!new)>(c: Curve<F>, p: Point<F>, q: Point<F>, r: F)
    requires IsField(c.K) && OnCurve(c, p) && OnCurve(c, q) && Sq(c.K, r) == c.a && Sq(c.K, Cross(c, p, q)) == c.K.one
    ensures var K := c.K;
            Sq(K, K.add(K.mul(r, p.x), K.mul(Cross(c, p, q), p.y)))
            == K.mul(Right(c, p), Sq(K, K.add(K.mul(r, q.x), q.y)))
  {
    var K, e, k1, k2 := c.K, Cross(c, p, q), Right(c, p), Right(c, q);
    var rx, ey, rxy := K.mul(r, p.x), K.mul(e, p.y), K.mul(K.mul(r, q.x), q.y);
    SqSum(K, rx, ey);
    SqMul(K, r, p.x);
    SqMul(K, e, p.y);
    Units(K, Sq(K, p.y));
    // e1 == 1 + k1 == k1 k2 + k1 == k1 e2
    RightsMultiply(c, p, q);
    Distrib(K, k1, K.one, k2);
    Units(K, k1);
    Comm(K, k1, K.mul(k1, k2));
    SqSum(K, K.mul(r, q.x), q.y);
    SqMul(K, r, q.x);
    MiddleTerms(c, p, q, r);
    MulTwice(K, k1, rxy);
    Distrib(K, k1, K.add(K.mul(c.a, Sq(K, q.x)), Sq(K, q.y)), Twice(K, rxy));
  }

  /** (r x1) (C y1) == k1 (r x2 y2) */
  lemma MiddleTerms<F(!new)>(c: Curve<F>, p: Point<F>, q: Point<F>, r: F)
    requires IsField(c.K)
    ensures var K := c.K;
            K.mul(K.mul(r, p.x), K.mul(Cross(c, p, q), p.y)) == K.mul(Right(c, p), K.mul(K.mul(r, q.x), q.y))
  {
    var K, e := c.K, Cross(c, p, q);
    var xy1, xy2 := K.mul(p.x, p.y), K.mul(q.x, q.y);
    // both are r (d ((x1 y1)^2 (x2 y2)))
    Comm(K, e, p.y);
    MulShuffle(K, r, p.x, p.y, e);
    Comm(K, r, p.y);
    MulShuffle(K, p.y, r, p.x, e);
    Comm(K, p.y, p.x);
    CommonProducts(c, p, q);
    ThreeFactors(K, xy1, r, e);
    ThreeFactors(K, xy1, c.d, Common(K, p, q));
    Assoc(K, xy1, xy1, xy2);
    SqMul(K, p.x, p.y);
    Assoc(K, r, q.x, q.y);
    ThreeFactors(K, Right(c, p), r, xy2);
    Assoc(K, c.d, Sq(K, xy1), xy2);
  }

  /** d would be the square of (r x1 + C y1) / (x1 y1 (r x2 + y2)). */
  lemma WouldBeSquare<F(!new)>(c: Curve<F>, p: Point<F>, u: F, v: F)
    requires IsField(c.K) && Sq(c.K, u) == c.K.mul(Right(c, p), Sq(c.K, v))
    requires c.K.mul(p.x, p.y) != c.K.zero && v != c.K.zero
    ensures IsSquare(c.K, c.d)
  {
    var K, m := c.K, c.K.mul(c.K.mul(p.x, p.y), v);
    var root := K.mul(u, K.inv(m));
    NonZeroProduct(K, K.mul(p.x, p.y), v);
    NonZeroProduct(K, m, m);
    QuotientSquare(K, u, m);
    SqMul(K, K.mul(p.x, p.y), v);
    SqMul(K, p.x, p.y);
    Assoc(K, c.d, Sq(K, K.mul(p.x, p.y)), Sq(K, v));
    MulCancel(K, Sq(K, m), Sq(K, root), c.d);
  }

  /** r x + y == 0 == -r x + y leaves y == 0 when 2 is not 0. */
  lemma BothVanish<F(!new)>(K: Field<F>, s: F, y: F)
    requires IsField(K) && Twice(K, K.one) != K.zero
    requires K.add(s, y) == K.zero && K.add(K.neg(s), y) == K.zero
    ensures y == K.zero
  {
    AddShuffle(K, s, y, K.neg(s), y);
    Units(K, s);
    Units(K, K.zero);
    Units(K, Twice(K, y));
    Units(K, y);
    MulTwice(K, y, K.one);
    if y != K.zero {
      NonZeroProduct(K, y, Twice(K, K.one));
    }
  }

  /** On a complete curve the cross product of two points never squares to one. */
  lemma CrossIsNoUnit<F(!new)>(c: Curve<F>, p: Point<F>, q: Point<F>)
    requires IsField(c.K) && Complete(c) && OnCurve(c, p) && OnCurve(c, q)
    ensures Sq(c.K, Cross(c, p, q)) != c.K.one
  {
    var K, e := c.K, Cross(c, p, q);
    if Sq(K, e) == K.one {
      var r :| Sq(K, r) == c.a;
      NothingVanishes(c, p, q);
      SqNeg(K, r);
      SquaresRelate(c, p, q, r);
      SquaresRelate(c, p, q, K.neg(r));
      MulNeg(K, q.x, r);
      if K.add(K.mul(r, q.x), q.y) != K.zero {
        WouldBeSquare(c, p, K.add(K.mul(r, p.x), K.mul(e, p.y)), K.add(K.mul(r, q.x), q.y));
      } else if K.add(K.mul(K.neg(r), q.x), q.y) != K.zero {
        WouldBeSquare(c, p, K.add(K.mul(K.neg(r), p.x), K.mul(e, p.y)), K.add(K.mul(K.neg(r), q.x), q.y));
      } else {
        BothVanish(K, K.mul(r, q.x), q.y);
      }
    }
  }

  lemma SqNeg<F(!new)>(K: Field<F>, a: F)
    requires IsField(K)
    ensures Sq(K, K.neg(a)) == Sq(K, a)
  {
    MulNeg(K, K.neg(a), a);
    MulNeg(K, a, a);
    NegNeg(K, Sq(K, a));
  }

  /** A cross product that squares to one has no factor zero. */
  lemma NothingVanishes<F(!new)>(c: Curve<F>, p: Point<F>, q: Point<F>)
    requires IsField(c.K) && Sq(c.K, Cross(c, p, q)) == c.K.one
    ensures c.K.mul(p.x, p.y) != c.K.zero && q.y != c.K.zero
  {
    var K := c.K;
    CommonProducts(c, p, q);
    MulZero(K, K.zero);
    MulZero(K, c.d);
    MulZero(K, q.x);
    MulZero(K, K.mul(q.x, q.y));
    MulZero(K, K.mul(p.x, p.y));
  }

  /** On a complete curve the law is defined everywhere. */
  lemma AlwaysDefined<F(!new)>(c: Curve<F>, p: Point<F>, q: Point<F>)
    requires IsField(c.K) && Complete(c) && OnCurve(c, p) && OnCurve(c, q)
    ensures Defined(c, p, q)
  {
    var K, e := c.K, Cross(c, p, q);
    CrossIsNoUnit(c, p, q);
    Units(K, K.one);
    Units(K, e);
    if K.add(K.one, e) == K.zero {
      AddCancel(K, K.one, e, K.neg(K.one));
      SqNeg(K, K.one);
    }
    if K.Sub(K.one, e) == K.zero {
      SubSelf(K, K.one, e);
    }
  }

  lemma NeutralOnCurve<F(!new)>(c: Curve<F>)
    requires IsField(c.K)
    ensures OnCurve(c, Neutral(c))
  {
    var K := c.K;
    MulZero(K, K.zero);
    MulZero(K, K.one);
    MulZero(K, c.a);
    MulZero(K, c.d);
    Units(K, K.one);
  }
}
