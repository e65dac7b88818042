/** Optional values, outcomes that may fail, markers, equality kept whole, powers of two and integer
    division. */
module Basics {

  datatype Option<+T> = None | Some(value: T)

  datatype Result<+T, +E> = Success(value: T) | Failure(error: E) {
    predicate IsFailure() {
      Failure?
    }

    function PropagateFailure<U>(): Result<U, E>
      requires Failure?
    {
      Failure(error)
    }

    function Extract(): T
      requires Success?
    {
      value
    }
  }

  // ----- markers -----

  // Each holds of everything. As the trigger of a quantifier they keep a law or a folded
  // definition out of the way until an `assert` names what it is wanted for.

  ghost predicate At1<T>(a: T) { true }

  ghost predicate At2<T>(a: T, b: T) { true }

  ghost predicate At3<T>(a: T, b: T, c: T) { true }

  /** Equality. Stated through a type parameter it is settled by rewriting, where that of
      two sequences would be taken apart element by element. */
  ghost predicate Same<T>(a: T, b: T) {
    a == b
  }

  // ----- powers of two -----

  function Pow2(n: nat): (r: nat)
    ensures r > 0
  {
    if n == 0 then 1 else 2 * Pow2(n - 1)
  }

  // ----- division -----

  lemma MulOrder(a: nat, b: nat, d: nat)
    ensures a <= b ==> a * d <= b * d
  {
  }

  lemma DivParts(n: nat, d: nat)
    requires d > 0
    ensures n == (n / d) * d + n % d && n % d < d
  {
  }

  lemma UniqueQuotient(n: nat, d: nat, q: nat, r: nat)
    requires d > 0 && n == q * d + r && r < d
    ensures n / d == q && n % d == r
  {
    var k := n / d;
    DivParts(n, d);
    MulOrder(k + 1, q, d);
    MulOrder(q + 1, k, d);
  }

  lemma NestedDiv(n: nat, a: nat, b: nat)
    requires a > 0 && b > 0
    ensures a * b > 0 && (n / a) / b == n / (a * b)
  {
    var q, r := n / a, n % a;
    var h, s := q / b, q % b;
    DivParts(n, a);
    DivParts(q, b);
    assert (h * b + s) * a == h * (a * b) + s * a;
    MulOrder(s, b - 1, a);
    assert (b - 1) * a == a * b - a;
    UniqueQuotient(n, a * b, h, s * a + r);
  }

  /** The next multiple of `d` lies past `n`. */
  lemma NextMultiple(n: nat, d: nat)
    requires d > 0
    ensures n < (n / d + 1) * d
  {
    DivParts(n, d);
    assert (n / d + 1) * d == (n / d) * d + d;
  }

  // ----- sequences -----

  lemma Shift<T>(s: seq<T>, x: T, t: seq<T>)
    ensures Same(s + ([x] + t), (s + [x]) + t)
  {
    assert s + ([x] + t) == (s + [x]) + t;
  }
}
