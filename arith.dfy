/** Powers of natural numbers, shared by the digit counting and the digit parsing. */
module Arith {

  function Pow(base: nat, n: nat): (p: nat)
    requires base >= 1
    ensures p >= 1
  {
    if n == 0 then 1 else base * Pow(base, n - 1)
  }

  lemma {:induction false} PowGrows(base: nat, i: nat, j: nat)
    requires base >= 1 && i <= j
    ensures Pow(base, i) <= Pow(base, j)
    decreases j - i
  {
    if i < j {
      PowGrows(base, i, j - 1);
      assert Pow(base, j) == base * Pow(base, j - 1) >= Pow(base, j - 1);
    }
  }
}
