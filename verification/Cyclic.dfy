/** Positions on the ring of `n` slots that every open-addressing table of the library walks. */
module Cyclic {

  /** The slot after i: the code's `(i + 1) & mask`. */
  function Next(i: nat, n: nat): (r: nat)
    requires i < n
    ensures r < n
  {
    if i + 1 == n then 0 else i + 1
  }

  /** How many steps lead from a up to b, wrapping at n. */
  ghost function Dist(n: nat, a: nat, b: nat): (r: nat)
    requires a < n && b < n
    ensures r < n
  {
    if a <= b then b - a else n - a + b
  }
}
