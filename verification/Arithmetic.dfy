/** Named products and quotients. */
module Arithmetic {
  // Under a name they stay out of the solver's way where only their laws matter.

  function FloorDiv(a: nat, b: nat): nat
    requires b > 0
  {
    a / b
  }

  function Times(a: nat, b: nat): nat { a * b }

  lemma TimesPositive(a: nat, b: nat)
    requires a > 0 && b > 0
    ensures Times(a, b) > 0
  {
  }
}
