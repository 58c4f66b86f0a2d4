/** Walking a table of 2^lg slots with an odd stride meets every slot exactly once in 2^lg steps:
  * the fact behind every open-addressing probe and every golden-ratio walk of the library. */
module OddStride {
  import opened Powers
  import opened Sets

  /** The slot after j steps: the code's repeated `(index + stride) & mask`. */
  ghost function Walk(home: nat, stride: nat, lg: nat, j: nat): nat {
    if j == 0 then home else LowBits(Walk(home, stride, lg, j - 1) + stride, lg)
  }

  lemma WalkInside(home: nat, stride: nat, lg: nat, j: nat)
    requires home < Pow2(lg)
    ensures Walk(home, stride, lg, j) < Pow2(lg)
  {
    if j != 0 {
      LowBitsBound(Walk(home, stride, lg, j - 1) + stride, lg);
    }
  }

  /** After j steps the walk is j strides away from home, up to whole turns. */
  lemma {:induction false} WalkTurns(home: nat, stride: nat, lg: nat, j: nat) returns (turns: int)
    ensures Walk(home, stride, lg, j) == home + j * stride - turns * Pow2(lg)
  {
    if j == 0 {
      turns := 0;
    } else {
      var t := WalkTurns(home, stride, lg, j - 1);
      var x := Walk(home, stride, lg, j - 1) + stride;
      SplitBits(x, lg);
      turns := t + Shr(x, lg);
      MulDistributes(j - 1, 1, stride);
      MulDistributes(t, Shr(x, lg), Pow2(lg));
    }
  }

  lemma WalkStarts(home: nat, stride: nat, lg: nat)
    ensures Walk(home, stride, lg, 0) == home
  {
  }

  lemma WalkReturns(home: nat, stride: nat, lg: nat)
    requires home < Pow2(lg)
    ensures Walk(home, stride, lg, Pow2(lg)) == home
  {
    hide *;
    var turns := WalkTurns(home, stride, lg, Pow2(lg));
    WalkInside(home, stride, lg, Pow2(lg));
    WholeTurns(Walk(home, stride, lg, Pow2(lg)) - home, stride, turns, Pow2(lg));
  }

  lemma WholeTurns(d: int, stride: int, turns: int, n: nat)
    requires d == n * stride - turns * n && 0 - n < d < n
    ensures d == 0
  {
    assert d == (stride - turns) * n;
    if stride - turns >= 1 {
      MulLe(1, stride - turns, n);
    } else if stride - turns <= -1 {
      MulLe(stride - turns, -1, n);
    }
  }

  /** An odd factor does not help to reach a multiple of 2^lg. */
  lemma {:induction false} OddCancels(d: int, stride: int, q: int, lg: nat) returns (r: int)
    requires stride % 2 == 1 && d * stride == q * Pow2(lg)
    ensures d == r * Pow2(lg)
    decreases lg
  {
    if lg == 0 {
      r := d;
    } else {
      EvenFactor(d, stride, q * Pow2(lg - 1));
      HalvesAgree(d / 2, stride, q, Pow2(lg - 1));
      r := OddCancels(d / 2, stride, q, lg - 1);
      MulDoubleInt(r, Pow2(lg - 1));
    }
  }

  lemma MulDoubleInt(a: int, b: int)
    ensures a * (2 * b) == 2 * (a * b)
  {
  }

  lemma HalvesAgree(e: int, stride: int, q: int, p: int)
    requires 2 * e * stride == q * (2 * p)
    ensures e * stride == q * p
  {
  }

  lemma EvenFactor(d: int, stride: int, half: int)
    requires stride % 2 == 1 && d * stride == 2 * half
    ensures d % 2 == 0
  {
    OddProduct(d / 2, stride / 2);
  }

  lemma OddProduct(e: int, s: int)
    ensures (2 * e + 1) * (2 * s + 1) == 2 * (2 * (e * s) + e + s) + 1
  {
  }

  lemma NotMultiple(d: int, r: int, n: int)
    requires 0 < d < n
    ensures d != r * n
  {
  }

  lemma WalkDistinct(home: nat, stride: nat, lg: nat, i: nat, j: nat)
    requires stride % 2 == 1 && i < j < i + Pow2(lg)
    ensures Walk(home, stride, lg, i) != Walk(home, stride, lg, j)
  {
    if Walk(home, stride, lg, i) == Walk(home, stride, lg, j) {
      var a := WalkTurns(home, stride, lg, i);
      var b := WalkTurns(home, stride, lg, j);
      MulDistributes(j - i, i, stride);
      MulDistributes(b - a, a, Pow2(lg));
      var r := OddCancels(j - i, stride, b - a, lg);
      NotMultiple(j - i, r, Pow2(lg));
    }
  }

  /** The slots met in the first `steps` steps. */
  ghost function Met(home: nat, stride: nat, lg: nat, steps: nat): set<nat> {
    set j | 0 <= j < steps :: Walk(home, stride, lg, j)
  }

  lemma {:induction false} MetSize(home: nat, stride: nat, lg: nat, steps: nat)
    requires stride % 2 == 1 && steps <= Pow2(lg)
    ensures |Met(home, stride, lg, steps)| == steps
  {
    if steps != 0 {
      MetSize(home, stride, lg, steps - 1);
      var m := Met(home, stride, lg, steps - 1);
      var p := Walk(home, stride, lg, steps - 1);
      assert Met(home, stride, lg, steps) == m + {p};
      forall j | 0 <= j < steps - 1 ensures Walk(home, stride, lg, j) != p {
        WalkDistinct(home, stride, lg, j, steps - 1);
      }
    }
  }

  /** Every slot is met. */
  lemma WalkCovers(home: nat, stride: nat, lg: nat, p: nat) returns (j: nat)
    requires stride % 2 == 1 && home < Pow2(lg) && p < Pow2(lg)
    ensures j < Pow2(lg) && Walk(home, stride, lg, j) == p
  {
    MetSize(home, stride, lg, Pow2(lg));
    var m := Met(home, stride, lg, Pow2(lg));
    forall x | x in m ensures x < Pow2(lg) {
      var j :| 0 <= j < Pow2(lg) && Walk(home, stride, lg, j) == x;
      WalkInside(home, stride, lg, j);
    }
    FullSet(m, Pow2(lg));
    assert p in m;
    j :| 0 <= j < Pow2(lg) && Walk(home, stride, lg, j) == p;
  }

  ghost function GoldenRatio(n: nat): nat {
    var stride := 6180339887498949 * n / 1_0000_0000_0000_0000;
    if stride % 2 == 0 then stride + 1 else stride
  }

  /** The sixteen digits are those of the golden ratio, the positive root of x * x + x == 1. */
  lemma GoldenDigits()
    ensures var one, x := 1_0000_0000_0000_0000, 6180339887498949;
      (x - 1) * (x - 1) + (x - 1) * one < one * one < x * x + x * one
  {
  }

  /** The golden-ratio stride, forced to be odd. */
  method GoldenStride(n: nat) returns (stride: nat)
    requires 4 <= n
    ensures stride % 2 == 1 && 3 <= stride < n && stride == GoldenRatio(n)
    ensures (stride - 1) * 1_0000_0000_0000_0000 <= 6180339887498949 * n < (stride + 1) * 1_0000_0000_0000_0000
  {
    stride := 6180339887498949 * n / 1_0000_0000_0000_0000;
    assert stride >= 2;
    if stride == 2 * (stride / 2) {
      stride := stride + 1;
    }
  }
}
