/** Identities of a commutative ring, for the curve equation. */
module Ring {
  import opened Fields

  function Sq<F>(K: Field<F>, a: F): F {
    K.mul(a, a)
  }

  function Twice<F>(K: Field<F>, a: F): F {
    K.add(a, a)
  }

  lemma NegNeg<F(!new)>(K: Field<F>, a: F)
    requires IsField(K)
    ensures K.neg(K.neg(a)) == a
  {
    Units(K, a);
    Units(K, K.neg(a));
    AddCancel(K, K.neg(a), K.neg(K.neg(a)), a);
  }

  /** x m == y m gives x == y */
  lemma MulCancel<F(!new)>(K: Field<F>, m: F, x: F, y: F)
    requires IsField(K) && m != K.zero && K.mul(x, m) == K.mul(y, m)
    ensures x == y
  {
    Inverse(K, m);
    Assoc(K, x, m, K.inv(m));
    Assoc(K, y, m, K.inv(m));
    Units(K, x);
    Units(K, y);
  }

  /** x + t == y + t gives x == y */
  lemma AddCancelRight<F(!new)>(K: Field<F>, t: F, x: F, y: F)
    requires IsField(K) && K.add(x, t) == K.add(y, t)
    ensures x == y
  {
    Comm(K, x, t);
    Comm(K, y, t);
    AddCancel(K, t, x, y);
  }

  /** (p + q) (r + s) == (p r + p s) + (q r + q s) */
  lemma Foil<F(!new)>(K: Field<F>, p: F, q: F, r: F, s: F)
    requires IsField(K)
    ensures K.mul(K.add(p, q), K.add(r, s))
            == K.add(K.add(K.mul(p, r), K.mul(p, s)), K.add(K.mul(q, r), K.mul(q, s)))
  {
    Distrib(K, K.add(r, s), p, q);
    Distrib(K, p, r, s);
    Distrib(K, q, r, s);
  }

  /** (u + v)^2 == (u^2 + v^2) + 2 u v */
  lemma SqSum<F(!new)>(K: Field<F>, u: F, v: F)
    requires IsField(K)
    ensures Sq(K, K.add(u, v)) == K.add(K.add(Sq(K, u), Sq(K, v)), Twice(K, K.mul(u, v)))
  {
    Foil(K, u, v, u, v);
    Comm(K, u, v);
    var w := K.mul(u, v);
    Comm(K, w, Sq(K, v));
    AddShuffle(K, Sq(K, u), w, Sq(K, v), w);
  }

  /** (u - v)^2 + 2 u v == u^2 + v^2 */
  lemma SqDiff<F(!new)>(K: Field<F>, u: F, v: F)
    requires IsField(K)
    ensures K.add(Sq(K, K.Sub(u, v)), Twice(K, K.mul(u, v))) == K.add(Sq(K, u), Sq(K, v))
  {
    var t := K.mul(u, v);
    SqSum(K, u, K.neg(v));
    MulNeg(K, u, v);
    MulNeg(K, K.neg(v), v);
    MulNeg(K, v, v);
    NegNeg(K, Sq(K, v));
    var s := K.add(Sq(K, u), Sq(K, v));
    Assoc(K, s, Twice(K, K.neg(t)), Twice(K, t));
    AddShuffle(K, K.neg(t), K.neg(t), t, t);
    Units(K, t);
    Units(K, K.zero);
    Units(K, s);
  }

  /** (u v)^2 == u^2 v^2 */
  lemma SqMul<F(!new)>(K: Field<F>, u: F, v: F)
    requires IsField(K)
    ensures Sq(K, K.mul(u, v)) == K.mul(Sq(K, u), Sq(K, v))
  {
    MulShuffle(K, u, v, u, v);
  }

  /** a (2 b) == 2 (a b) */
  lemma MulTwice<F(!new)>(K: Field<F>, a: F, b: F)
    requires IsField(K)
    ensures K.mul(a, Twice(K, b)) == Twice(K, K.mul(a, b))
  {
    Distrib(K, a, b, b);
  }

  /** 2 (a + b) == 2 a + 2 b */
  lemma TwiceSum<F(!new)>(K: Field<F>, a: F, b: F)
    requires IsField(K)
    ensures Twice(K, K.add(a, b)) == K.add(Twice(K, a), Twice(K, b))
  {
    AddShuffle(K, a, b, a, b);
  }

  /** Four factors in pairs. */
  lemma Four<F(!new)>(K: Field<F>, a: F, b: F, c: F, d: F)
    requires IsField(K)
    ensures K.mul(K.mul(a, b), K.mul(c, d)) == K.mul(K.mul(a, c), K.mul(b, d))
    ensures K.mul(K.mul(a, b), K.mul(c, d)) == K.mul(K.mul(a, d), K.mul(b, c))
    ensures K.mul(K.mul(a, b), K.mul(c, d)) == K.mul(K.mul(a, d), K.mul(c, b))
  {
    MulShuffle(K, a, b, c, d);
    Comm(K, c, d);
    MulShuffle(K, a, b, d, c);
    Comm(K, b, c);
  }
}
