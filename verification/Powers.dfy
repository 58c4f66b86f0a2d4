/** Powers of two: the sizes, shifts and masks of every table in the library. */
module Powers {

  function Pow2(n: nat): (r: nat)
    ensures r >= 1
  {
    if n == 0 then 1 else 2 * Pow2(n - 1)
  }

  lemma {:induction false} Add(m: nat, n: nat)
    ensures Pow2(m + n) == Pow2(m) * Pow2(n)
  {
    if m == 0 {
    } else {
      Add(m - 1, n);
      assert Pow2(m + n) == 2 * Pow2(m - 1 + n);
    }
  }

  lemma {:induction false} Monotone(m: nat, n: nat)
    requires m <= n
    ensures Pow2(m) <= Pow2(n)
  {
    if m < n {
      Monotone(m, n - 1);
    }
  }

  /** `x >> n`. */
  function Shr(x: nat, n: nat): nat {
    if n == 0 then x else Shr(x / 2, n - 1)
  }

  /** An item of m + n bits shifted right by n has m bits, and keeps its top bit. */
  lemma {:induction false} ShrBounds(x: nat, m: nat, n: nat)
    ensures x < Pow2(m + n) <==> Shr(x, n) < Pow2(m)
  {
    if n != 0 {
      assert Pow2(m + n) == 2 * Pow2(m + (n - 1));
      ShrBounds(x / 2, m, n - 1);
    }
  }

  /** Shifting right by n is dividing by 2^n, rounding down. */
  lemma {:induction false} ShrIsDivision(x: nat, n: nat)
    ensures Shr(x, n) * Pow2(n) <= x < (Shr(x, n) + 1) * Pow2(n)
  {
    if n != 0 {
      ShrIsDivision(x / 2, n - 1);
      var p, q := Pow2(n - 1), Shr(x / 2, n - 1);
      MulDouble(q, p);
      MulDouble(q + 1, p);
    }
  }

  lemma ShrDivides(x: nat, n: nat)
    ensures Shr(x, n) == x / Pow2(n)
  {
    hide *;
    ShrIsDivision(x, n);
    QuotientIs(x, Pow2(n), Shr(x, n));
  }

  lemma QuotientIs(x: nat, p: nat, q: nat)
    requires q * p <= x < (q + 1) * p
    ensures p > 0 && x / p == q
  {
    if p > 0 {
      Bracket(x, p, x / p, q);
    }
  }

  lemma Bracket(x: nat, p: nat, a: nat, b: nat)
    requires a * p <= x < (a + 1) * p && b * p <= x < (b + 1) * p
    ensures a == b
  {
    if a < b {
      MulLe(a + 1, b, p);
    } else if b < a {
      MulLe(b + 1, a, p);
    }
  }

  lemma MulDouble(a: nat, b: nat)
    ensures a * (2 * b) == 2 * (a * b)
  {
  }

  lemma MulLe(a: int, b: int, c: nat)
    requires a <= b
    ensures a * c <= b * c
  {
  }

  lemma MulDistributes(a: int, b: int, c: int)
    ensures (a + b) * c == a * c + b * c
  {
  }

  /** The sizes at the largest K. */
  lemma LargePowers()
    ensures Pow2(25) == 0x200_0000 && Pow2(26) == 0x400_0000 && Pow2(32) == 0x1_0000_0000
  {
    assert Pow2(8) == 256;
    Add(8, 8);
    Add(16, 8);
    assert Pow2(25) == 2 * Pow2(24);
    Add(24, 8);
  }

  lemma EightTimes(n: nat)
    ensures Pow2(n + 3) == 8 * Pow2(n)
  {
    assert Pow2(n + 3) == 2 * Pow2(n + 2) == 4 * Pow2(n + 1);
  }

  // ------------------------------------------------------- masking

  /** `x & (2^n - 1)`. */
  function LowBits(x: nat, n: nat): nat {
    if n == 0 then 0 else 2 * LowBits(x / 2, n - 1) + x % 2
  }

  lemma {:induction false} LowBitsBound(x: nat, n: nat)
    ensures LowBits(x, n) < Pow2(n)
    ensures x < Pow2(n) ==> LowBits(x, n) == x
  {
    if n != 0 {
      LowBitsBound(x / 2, n - 1);
    }
  }

  /** The low n bits are the remainder of the division by 2^n. */
  lemma {:induction false} SplitBits(x: nat, n: nat)
    ensures x == Shr(x, n) * Pow2(n) + LowBits(x, n)
  {
    if n != 0 {
      SplitBits(x / 2, n - 1);
      MulDouble(Shr(x / 2, n - 1), Pow2(n - 1));
    }
  }

  lemma LowBitsAre(x: nat, n: nat)
    ensures LowBits(x, n) == x % Pow2(n)
  {
    hide *;
    SplitBits(x, n);
    LowBitsBound(x, n);
    RemainderIs(x, Pow2(n), Shr(x, n), LowBits(x, n));
  }

  lemma RemainderIs(x: nat, p: nat, q: nat, r: nat)
    requires x == q * p + r && r < p
    ensures x % p == r
  {
    MulDistributes(q, 1, p);
    QuotientIs(x, p, q);
  }

  /** Masking to fewer bits forgets an earlier mask. */
  lemma {:induction false} LowBitsTwice(x: nat, m: nat, n: nat)
    requires n <= m
    ensures LowBits(LowBits(x, m), n) == LowBits(x, n)
  {
    if n != 0 {
      LowBitsTwice(x / 2, m - 1, n - 1);
      assert LowBits(x, m) / 2 == LowBits(x / 2, m - 1) && LowBits(x, m) % 2 == x % 2;
    }
  }

  lemma {:induction false} LowBitsOfPower(m: nat, n: nat)
    requires n <= m
    ensures LowBits(Pow2(m), n) == 0
  {
    if n != 0 {
      LowBitsOfPower(m - 1, n - 1);
    }
  }

  /** Dropping the top one of n + 1 bits. */
  lemma {:induction false} LowBitsTop(x: nat, n: nat)
    requires x < 2 * Pow2(n)
    ensures LowBits(x, n) == if x < Pow2(n) then x else x - Pow2(n)
  {
    if n != 0 {
      LowBitsTop(x / 2, n - 1);
    }
  }
}
