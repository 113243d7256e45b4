/**
 * The transcendental part of JavaScript's `Math` object that the formulas call:
 * `Math.sin`, `Math.cos`, `Math.pow` and the constant `Math.PI`.
 *
 * Their floating-point values are not modelled. A `MathLib` is any choice of
 * functions, and `Valid` keeps only the exact facts the proofs rely on:
 * sine and cosine lie in [-1, 1], a power of 10 is positive, anything to the
 * power 0 is 1, and pi is positive.
 */
module JsMath {

  datatype MathLib = MathLib(
    sin: real -> real,
    cos: real -> real,
    pow: (real, real) -> real,
    pi: real)

  /** The range facts the model assumes of the host's `Math`. */
  ghost predicate Valid(m: MathLib) {
    && (forall x :: -1.0 <= m.sin(x) <= 1.0)
    && (forall x :: -1.0 <= m.cos(x) <= 1.0)
    && (forall x :: m.pow(10.0, x) > 0.0)
    && (forall b :: m.pow(b, 0.0) == 1.0)
    && m.pi > 0.0
  }

  /** The assumptions are consistent: some `MathLib` meets them. */
  lemma ValidIsSatisfiable()
    ensures exists m :: Valid(m)
  {
    var w := MathLib(x => 0.0, x => 0.0, (b, x) => 1.0, 3.0);
    assert Valid(w);
  }

  /** A product of two values in [-1, 1] is again in [-1, 1]. */
  lemma UnitProduct(a: real, b: real)
    requires -1.0 <= a <= 1.0 && -1.0 <= b <= 1.0
    ensures -1.0 <= a * b <= 1.0
  {
    if a >= 0.0 && b >= 0.0 {
      assert a * b <= 1.0 * b;
    } else if a >= 0.0 {
      assert a * b >= a * -1.0;
    } else if b >= 0.0 {
      assert a * b >= -1.0 * b;
    } else {
      assert a * b <= -1.0 * b;
    }
  }
}
