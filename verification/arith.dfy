/** Facts about multiplication that the solver does not find on its own,
    shared by the modules that reason about areas, distances and ratios. */
module Arith {

  lemma MulPos(a: real, b: real)
    requires a > 0.0 && b > 0.0
    ensures a * b > 0.0
  {
  }

  lemma SquareNonNegative(x: real)
    ensures x * x >= 0.0
  {
    if x < 0.0 {
      MulPos(-x, -x);
    } else if x > 0.0 {
      MulPos(x, x);
    }
  }

  lemma MulLe(a: int, b: int, c: nat)
    requires a <= b
    ensures a * c <= b * c
  {
  }

  lemma MulAddLeft(a: int, b: int, c: int)
    ensures a * (b + c) == a * b + a * c
  {
  }
}
