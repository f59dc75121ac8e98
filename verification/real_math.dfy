/**
 * Real-number stand-ins for the parts of <cmath> and <limits> the mesh engine uses.
 *
 * Doubles are modelled as mathematical reals (no rounding). The transcendental
 * functions of the C library cannot be computed exactly, so they are not given a
 * definition here: the model receives them as a `Libm` value, and the few facts the
 * proofs rely on are stated by `SqrtLaw`.
 */
module RealMath {

  /** The host's math library: std::sqrt, std::cos and std::sin. */
  datatype Libm = Libm(sqrt: real -> real, cos: real -> real, sin: real -> real)

  /**
   * The only facts about std::sqrt the proofs use: on non-negative arguments it
   * returns the non-negative root. sqrt(0) == 0 follows from the first clause but
   * is stated on its own because the solver does not derive it.
   */
  ghost predicate SqrtLaw(m: Libm) {
    && (forall x: real {:trigger m.sqrt(x)} :: 0.0 <= x ==> 0.0 <= m.sqrt(x) && m.sqrt(x) * m.sqrt(x) == x)
    && m.sqrt(0.0) == 0.0
  }

  /** std::numeric_limits<double>::max(), exactly. */
  const MaxDouble: real := 179769313486231570814527423731704356798070567525844996598917476803157260780028538760589558632766878171540458953514382464234321326889464182768467546703537516986049910576551282076245490090389328944075868508455133942304583236903222948165808559332123348274797826204144723168738177180919299881250404026184124858368.0

  /** std::numeric_limits<double>::lowest(). */
  const LowestDouble: real := -MaxDouble

  function Abs(x: real): real {
    if x < 0.0 then -x else x
  }

  /** std::min on doubles: returns the first argument unless the second is smaller. */
  function Min(a: real, b: real): real {
    if b < a then b else a
  }

  /** std::max on doubles: returns the first argument unless the second is larger. */
  function Max(a: real, b: real): real {
    if a < b then b else a
  }

  /** A value that a finite double can hold (the range, not the precision). */
  predicate InDoubleRange(x: real) {
    LowestDouble <= x <= MaxDouble
  }

  /** Under the square-root law, a positive argument has a positive root. */
  lemma SqrtPositive(m: Libm, x: real)
    requires SqrtLaw(m)
    requires 0.0 < x
    ensures 0.0 < m.sqrt(x)
  {
    var r := m.sqrt(x);
    assert 0.0 <= r && r * r == x;
  }
}
