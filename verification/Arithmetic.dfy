/** Facts about products that the solver does not find by itself. */
module Arithmetic {
  lemma Scaled(x: int, y: int, f: int)
    requires 0 <= x <= y && 0 <= f
    ensures 0 <= x * f <= y * f
  {
  }

  lemma Distributes(x: int, y: int, f: int)
    ensures (x + y) * f == x * f + y * f
  {
  }
}
