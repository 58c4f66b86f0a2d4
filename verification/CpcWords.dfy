/** Rows of the coupon bit matrix. A 64-bit word is modelled as the set of its columns, and
  * each mask, shift and bitwise operator of the code as the set it selects. */
module CpcWords {

  type Row = set<nat>

  predicate Col(c: nat) {
    c < 64
  }

  /** The columns of a u64. */
  ghost predicate IsRow(row: Row) {
    forall c :: c in row ==> Col(c)
  }

  /** `(1 << offset) - 1`: the early zone, filled with ones. */
  function EarlyZone(offset: nat): Row {
    set c: nat | Col(c) && c < offset
  }

  /** `0xFF << offset`. */
  function WindowZone(offset: nat): Row {
    set c: nat | Col(c) && offset <= c < offset + 8
  }

  /** `(row >> offset) & 0xFF`. */
  function WindowOf(row: Row, offset: nat): Row {
    set c: nat | Col(c) && c < 8 && c + offset in row
  }

  /** `window << offset`, for a window byte. */
  function Shifted(window: Row, offset: nat): Row {
    set c: nat | Col(c) && offset <= c < offset + 8 && c - offset in window
  }

  function Xor(a: Row, b: Row): Row {
    (a - b) + (b - a)
  }

  /** `trailing_zeros`: the lowest column of the row, 64 for the empty row. */
  function TrailingZeros(row: Row): (z: nat)
    ensures z <= 64
    ensures forall c :: c < z ==> c !in row
    ensures z < 64 ==> z in row
  {
    LowestFrom(row, 0)
  }

  function LowestFrom(row: Row, from: nat): (z: nat)
    requires from <= 64 && forall c :: c < from ==> c !in row
    ensures z <= 64
    ensures forall c :: c < z ==> c !in row
    ensures z < 64 ==> z in row
    decreases 64 - from
  {
    if from == 64 || from in row then from else LowestFrom(row, from + 1)
  }

  /** What the two masks of a window move leave of a row: its zeros before the window and its
    * ones after it. */
  ghost function Surprises(row: Row, offset: nat): Row {
    set c: nat | c < 64 && Col(c) && if c < offset then c !in row else offset + 8 <= c && c in row
  }

  lemma SurpriseMask(row: Row, offset: nat)
    requires IsRow(row) && offset <= 56
    ensures Xor(row - WindowZone(offset), EarlyZone(offset)) == Surprises(row, offset)
  {
  }
}
