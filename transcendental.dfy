/** The revalidators of transcendental_diophantine1/revalidators.py. Only
    `pow_mod_eq_zero` is implemented there; it makes the diophantine1 checks
    in the same order but without the surrounding `try`. On the inputs
    modelled here the verdicts agree; an exception (a numeral longer than
    the interpreter's digit limit for `int()`, memory exhausted by
    `base ** min_value`) leaves this version by raising instead of giving
    False, and exceptions are not part of this model. */
module TranscendentalDiophantine1 {
  import opened Wrappers
  import opened ParsedClaims
  import Diophantine1Revalidators

  /** `pow_mod_eq_zero`: accepts `base ^ ident % mod = 0` from
      `ident % 1 = 0, ident >= min_value` exactly when every integer
      exponent from min_value on gives remainder 0. */
  function PowModEqZero(prop: Option<PowModZero>, factCount: nat, facts: Option<IntegerAtLeast>): (verdict: bool)
    ensures verdict <==>
      prop.Some? && prop.value.base >= 2 && prop.value.mod >= 2 &&
      factCount == 2 && facts.Some? &&
      facts.value.ident2 == prop.value.ident && facts.value.ident3 == prop.value.ident &&
      facts.value.minValue >= 1 &&
      Diophantine1Revalidators.ZeroFrom(prop.value.base, prop.value.mod, facts.value.minValue)
  {
    Diophantine1Revalidators.PowModEqZero(prop, factCount, facts)
  }
}
