/** Two fields that meet the laws, the reals and a prime field, so that the
    theorems stated for every field are not about nothing. */
module FieldInstances {
  import opened Fields
  import opened Ring
  import opened Edwards

  function Reals(): Field<real> {
    Field(0.0, 1.0,
          (a: real, b: real) => a + b,
          (a: real, b: real) => a * b,
          (a: real) => -a,
          (a: real) => if a == 0.0 then 0.0 else 1.0 / a)
  }

  lemma RealsAreAField()
    ensures IsField(Reals())
  {
  }

  /** The prime field of two elements. */
  function Bits(): Field<bool> {
    Field(false, true,
          (a: bool, b: bool) => a != b,
          (a: bool, b: bool) => a && b,
          (a: bool) => a,
          (a: bool) => a)
  }

  lemma BitsAreAField()
    ensures IsField(Bits())
  {
  }

  /** The curve x^2 + y^2 = 1 - x^2 y^2 over the reals is complete. */
  lemma CompleteCurve()
    ensures Complete(Curve(Reals(), 1.0, -1.0))
  {
    var K := Reals();
    assert Sq(K, 1.0) == 1.0;
    forall r: real ensures Sq(K, r) != -1.0 {
      assert r * r >= 0.0;
    }
  }
}
