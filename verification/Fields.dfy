/** The arithmetic the Poseidon and BabyJubJub code asks of `ark_ff::PrimeField`:
    a commutative field, given as a record of operations plus the laws they obey.
    Everything downstream is stated for every such record. */
module Fields {
  import opened Basics

  datatype Field<!F> = Field(
    zero: F,
    one: F,
    add: (F, F) -> F,
    mul: (F, F) -> F,
    neg: F -> F,
    inv: F -> F)
  {
    function Sub(a: F, b: F): F {
      add(a, neg(b))
    }
  }

  // The laws are instantiated by hand, through the markers: leaving associativity and
  // commutativity to the solver's matching would not terminate.

  ghost predicate IsField<F(!new)>(K: Field<F>) {
    && K.zero != K.one
    && (forall a {:trigger At1(a)} ::
          && K.add(a, K.zero) == a
          && K.mul(a, K.one) == a
          && K.add(a, K.neg(a)) == K.zero
          && (a != K.zero ==> K.mul(a, K.inv(a)) == K.one))
    && (forall a, b {:trigger At2(a, b)} ::
          && K.add(a, b) == K.add(b, a)
          && K.mul(a, b) == K.mul(b, a))
    && (forall a, b, c {:trigger At3(a, b, c)} ::
          && K.add(K.add(a, b), c) == K.add(a, K.add(b, c))
          && K.mul(K.mul(a, b), c) == K.mul(a, K.mul(b, c))
          && K.mul(a, K.add(b, c)) == K.add(K.mul(a, b), K.mul(a, c)))
  }

  lemma Comm<F(!new)>(K: Field<F>, a: F, b: F)
    requires IsField(K)
    ensures K.add(a, b) == K.add(b, a) && K.mul(a, b) == K.mul(b, a)
  {
    assert At2(a, b);
  }

  lemma Assoc<F(!new)>(K: Field<F>, a: F, b: F, c: F)
    requires IsField(K)
    ensures K.add(K.add(a, b), c) == K.add(a, K.add(b, c))
    ensures K.mul(K.mul(a, b), c) == K.mul(a, K.mul(b, c))
  {
    assert At3(a, b, c);
  }

  lemma Distrib<F(!new)>(K: Field<F>, a: F, b: F, c: F)
    requires IsField(K)
    ensures K.mul(a, K.add(b, c)) == K.add(K.mul(a, b), K.mul(a, c))
    ensures K.mul(K.add(b, c), a) == K.add(K.mul(b, a), K.mul(c, a))
  {
    assert At3(a, b, c);
    Comm(K, a, K.add(b, c));
    Comm(K, a, b);
    Comm(K, a, c);
  }

  lemma Units<F(!new)>(K: Field<F>, a: F)
    requires IsField(K)
    ensures K.add(a, K.zero) == a && K.add(K.zero, a) == a
    ensures K.mul(a, K.one) == a && K.mul(K.one, a) == a
    ensures K.add(a, K.neg(a)) == K.zero && K.add(K.neg(a), a) == K.zero
  {
    assert At1(a);
    Comm(K, a, K.zero);
    Comm(K, a, K.one);
    Comm(K, a, K.neg(a));
  }

  lemma Inverse<F(!new)>(K: Field<F>, a: F)
    requires IsField(K) && a != K.zero
    ensures K.mul(a, K.inv(a)) == K.one && K.mul(K.inv(a), a) == K.one
  {
    assert At1(a);
    Comm(K, a, K.inv(a));
  }

  /** A sum that leaves `a` unchanged adds zero. */
  lemma AddCancel<F(!new)>(K: Field<F>, a: F, x: F, y: F)
    requires IsField(K) && K.add(a, x) == K.add(a, y)
    ensures x == y
  {
    var n := K.neg(a);
    Units(K, a); Units(K, x); Units(K, y);
    Assoc(K, n, a, x);
    Assoc(K, n, a, y);
  }

  lemma MulZero<F(!new)>(K: Field<F>, a: F)
    requires IsField(K)
    ensures K.mul(a, K.zero) == K.zero && K.mul(K.zero, a) == K.zero
  {
    Units(K, K.zero);
    Units(K, K.mul(a, K.zero));
    Distrib(K, a, K.zero, K.zero);
    AddCancel(K, K.mul(a, K.zero), K.mul(a, K.zero), K.zero);
    Comm(K, a, K.zero);
  }

  lemma MulNeg<F(!new)>(K: Field<F>, a: F, b: F)
    requires IsField(K)
    ensures K.mul(a, K.neg(b)) == K.neg(K.mul(a, b))
    ensures K.mul(K.neg(b), a) == K.neg(K.mul(b, a))
  {
    Units(K, b);
    Units(K, K.mul(a, b));
    Distrib(K, a, b, K.neg(b));
    MulZero(K, a);
    AddCancel(K, K.mul(a, b), K.mul(a, K.neg(b)), K.neg(K.mul(a, b)));
    Comm(K, a, b);
    Comm(K, a, K.neg(b));
  }

  /** (a + b) + (c + d) == (a + c) + (b + d) */
  lemma AddShuffle<F(!new)>(K: Field<F>, a: F, b: F, c: F, d: F)
    requires IsField(K)
    ensures K.add(K.add(a, b), K.add(c, d)) == K.add(K.add(a, c), K.add(b, d))
  {
    Assoc(K, a, b, K.add(c, d));
    Assoc(K, b, c, d);
    Comm(K, b, c);
    Assoc(K, c, b, d);
    Assoc(K, a, c, K.add(b, d));
  }

  /** (a b) (c d) == (a c) (b d) */
  lemma MulShuffle<F(!new)>(K: Field<F>, a: F, b: F, c: F, d: F)
    requires IsField(K)
    ensures K.mul(K.mul(a, b), K.mul(c, d)) == K.mul(K.mul(a, c), K.mul(b, d))
  {
    Assoc(K, a, b, K.mul(c, d));
    Assoc(K, b, c, d);
    Comm(K, b, c);
    Assoc(K, c, b, d);
    Assoc(K, a, c, K.mul(b, d));
  }

  lemma SubSelf<F(!new)>(K: Field<F>, a: F, b: F)
    requires IsField(K)
    ensures K.Sub(a, a) == K.zero
    ensures K.add(b, K.Sub(a, b)) == a
    ensures K.Sub(K.add(b, a), b) == a
  {
    Units(K, a);
    Units(K, b);
    Comm(K, a, K.neg(b));
    Assoc(K, b, K.neg(b), a);
    Comm(K, b, a);
    Assoc(K, a, b, K.neg(b));
  }

  lemma NonZeroProduct<F(!new)>(K: Field<F>, a: F, b: F)
    requires IsField(K) && a != K.zero && b != K.zero
    ensures K.mul(a, b) != K.zero
  {
    Inverse(K, a);
    Assoc(K, K.inv(a), a, b);
    Units(K, b);
    MulZero(K, K.inv(a));
  }
}
