/** Products as repeated addition, for loops that count rows of equal length. */
module Counting {
  function Repeated(step: nat, n: nat): nat {
    if n == 0 then 0 else Repeated(step, n - 1) + step
  }

  lemma {:induction false} RepeatedIsProduct(step: nat, n: nat)
    ensures Repeated(step, n) == step * n
  {
    if n > 0 {
      RepeatedIsProduct(step, n - 1);
    }
  }
}
