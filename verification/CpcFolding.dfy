/** Coupons seen at a smaller K: their rows masked to fewer bits, as the union does. */
module CpcFolding {
  import opened Powers
  import opened CpcWords
  import opened CpcCoupons
  import opened Sets
  import opened CpcPairTable

  function MaskCoupon(rc: nat, lgK: nat): nat {
    64 * LowBits(rc / 64, lgK) + rc % 64
  }

  /** Masking the row of a coupon is taking it modulo 64 K. */
  lemma MaskIs(rc: nat, lgK: nat)
    ensures MaskCoupon(rc, lgK) == rc % (64 * Pow2(lgK))
  {
    hide LowBits, Pow2;
    var row, p := rc / 64, Pow2(lgK);
    SplitBits(row, lgK);
    LowBitsBound(row, lgK);
    RowsScaled(rc, Shr(row, lgK), p, LowBits(row, lgK));
    RemainderIs(rc, 64 * p, Shr(row, lgK), MaskCoupon(rc, lgK));
  }

  lemma RowsScaled(rc: nat, q: nat, p: nat, low: nat)
    requires rc / 64 == q * p + low && low < p
    ensures rc == q * (64 * p) + (64 * low + rc % 64) && 64 * low + rc % 64 < 64 * p
  {
    assert q * (64 * p) == 64 * (q * p);
  }

  ghost function Masked(coupons: set<nat>, lgK: nat): set<nat> {
    set rc | rc in coupons :: MaskCoupon(rc, lgK)
  }

  lemma MaskedUnion(a: set<nat>, b: set<nat>, lgK: nat)
    ensures Masked(a + b, lgK) == Masked(a, lgK) + Masked(b, lgK)
  {
  }

  lemma MaskedTwice(coupons: set<nat>, m: nat, n: nat)
    requires n <= m
    ensures Masked(Masked(coupons, m), n) == Masked(coupons, n)
  {
    forall rc | rc in coupons ensures MaskCoupon(MaskCoupon(rc, m), n) == MaskCoupon(rc, n) {
      MaskTwice(rc, m, n);
    }
    var once, twice := Masked(coupons, n), Masked(Masked(coupons, m), n);
    forall x | x in once ensures x in twice {
      var rc :| rc in coupons && MaskCoupon(rc, n) == x;
      assert MaskCoupon(rc, m) in Masked(coupons, m);
    }
  }

  lemma MaskTwice(rc: nat, m: nat, n: nat)
    requires n <= m
    ensures MaskCoupon(MaskCoupon(rc, m), n) == MaskCoupon(rc, n)
  {
    LowBitsTwice(rc / 64, m, n);
    assert MaskCoupon(rc, m) / 64 == LowBits(rc / 64, m);
  }

  lemma MaskedSame(coupons: set<nat>, lgK: nat)
    requires AllCoupons(lgK, coupons)
    ensures Masked(coupons, lgK) == coupons
  {
    forall rc | rc in coupons ensures MaskCoupon(rc, lgK) == rc {
      assert Coupon(lgK, rc);
      LowBitsBound(rc / 64, lgK);
    }
    forall rc | rc in coupons ensures rc in Masked(coupons, lgK) {
      assert MaskCoupon(rc, lgK) in Masked(coupons, lgK);
    }
  }

  lemma MaskedCoupons(coupons: set<nat>, m: nat, n: nat)
    requires n <= m <= 26 && AllCoupons(m, coupons)
    ensures AllCoupons(n, Masked(coupons, n))
  {
    if n == m {
      MaskedSame(coupons, n);
    } else {
      Monotone(n, 25);
      LargePowers();
      forall rc | rc in coupons ensures Coupon(n, MaskCoupon(rc, n)) {
        LowBitsBound(rc / 64, n);
      }
    }
  }

  /** Halving K at most halves the number of coupons: two rows fold into one. */
  lemma HalvingKeepsHalf(coupons: set<nat>, n: nat)
    requires n < 26 && AllCoupons(n + 1, coupons)
    ensures |coupons| <= 2 * |Masked(coupons, n)|
  {
    hide *;
    forall rc | rc in coupons
      ensures (if rc < 64 * Pow2(n) then rc else rc - 64 * Pow2(n)) in Masked(coupons, n)
    {
      FoldInTwo(coupons, n, rc);
    }
    TwoToOne(coupons, Masked(coupons, n), 64 * Pow2(n));
  }

  lemma TwoToOne(a: set<nat>, b: set<nat>, half: nat)
    requires forall x :: x in a ==> (if x < half then x else x - half) in b
    ensures |a| <= 2 * |b|
  {
    var low := set x | x in a && x < half;
    var high := set x | x in a && x >= half;
    SubsetSize(low, b);
    ShiftSize(high, b, half);
    assert a == low + high && low !! high;
  }

  lemma FoldInTwo(coupons: set<nat>, n: nat, rc: nat)
    requires AllCoupons(n + 1, coupons) && rc in coupons
    ensures (if rc < 64 * Pow2(n) then rc else rc - 64 * Pow2(n)) in Masked(coupons, n)
  {
    assert Coupon(n + 1, rc);
    LowBitsTop(rc / 64, n);
    assert MaskCoupon(rc, n) in Masked(coupons, n);
  }

  lemma {:induction false} ShiftSize(a: set<nat>, b: set<nat>, d: nat)
    requires forall x :: x in a ==> x >= d && x - d in b
    ensures |a| <= |b|
  {
    if a != {} {
      var x :| x in a;
      forall y | y in a - {x} ensures y >= d && y - d in b - {x - d} {
      }
      ShiftSize(a - {x}, b - {x - d}, d);
    }
  }

  /** A set of coupons past the sparse limit stays past it however far K is reduced. */
  lemma {:induction false} DenseStaysDense(coupons: set<nat>, m: nat, n: nat)
    requires n <= m <= 26 && AllCoupons(m, coupons) && 3 * Pow2(m) <= 32 * |coupons|
    ensures 3 * Pow2(n) <= 32 * |Masked(coupons, n)|
    decreases m - n
  {
    if n == m {
      MaskedSame(coupons, n);
    } else {
      DenseStaysDense(coupons, m, n + 1);
      MaskedCoupons(coupons, m, n + 1);
      HalvingKeepsHalf(Masked(coupons, n + 1), n);
      MaskedTwice(coupons, n + 1, n);
    }
  }

  // ------------------------------------------------- folding bit matrices

  /** The coupons of the rows below r. */
  ghost function RowsBelow(coupons: set<nat>, r: nat): set<nat> {
    set rc | rc in coupons && rc / 64 < r
  }

  /** Or-ing row r of one matrix into the row it folds to adds exactly its coupons. */
  lemma FoldRow(dst: seq<Row>, a: set<nat>, b: set<nat>, lgK: nat, r: nat)
    requires MatrixOf(dst, a + Masked(RowsBelow(b, r), lgK), lgK)
    ensures LowBits(r, lgK) < |dst|
    ensures var q := LowBits(r, lgK);
      MatrixOf(dst[q := dst[q] + RowOf(b, r)], a + Masked(RowsBelow(b, r + 1), lgK), lgK)
  {
    LowBitsBound(r, lgK);
    var q := LowBits(r, lgK);
    var before, after := a + Masked(RowsBelow(b, r), lgK), a + Masked(RowsBelow(b, r + 1), lgK);
    forall p | 0 <= p < |dst|
      ensures RowOf(after, p) == RowOf(before, p) + if p == q then RowOf(b, r) else {}
    {
      FoldedRow(a, b, lgK, r, p);
    }
  }

  lemma FoldedRow(a: set<nat>, b: set<nat>, lgK: nat, r: nat, p: nat)
    ensures RowOf(a + Masked(RowsBelow(b, r + 1), lgK), p)
         == RowOf(a + Masked(RowsBelow(b, r), lgK), p) + if p == LowBits(r, lgK) then RowOf(b, r) else {}
  {
    forall c: nat | Col(c)
      ensures 64 * p + c in Masked(RowsBelow(b, r + 1), lgK)
         <==> 64 * p + c in Masked(RowsBelow(b, r), lgK) || (p == LowBits(r, lgK) && 64 * r + c in b)
    {
      FoldedBit(b, lgK, r, p, c);
    }
  }

  lemma FoldedBit(b: set<nat>, lgK: nat, r: nat, p: nat, c: nat)
    requires Col(c)
    ensures 64 * p + c in Masked(RowsBelow(b, r + 1), lgK)
       <==> 64 * p + c in Masked(RowsBelow(b, r), lgK) || (p == LowBits(r, lgK) && 64 * r + c in b)
  {
    hide *;
    if 64 * p + c in Masked(RowsBelow(b, r + 1), lgK) {
      FoldedBitFrom(b, lgK, r, p, c);
    } else if 64 * p + c in Masked(RowsBelow(b, r), lgK) || (p == LowBits(r, lgK) && 64 * r + c in b) {
      FoldedBitTo(b, lgK, r, p, c);
    }
  }

  lemma FoldedBitFrom(b: set<nat>, lgK: nat, r: nat, p: nat, c: nat)
    requires Col(c) && 64 * p + c in Masked(RowsBelow(b, r + 1), lgK)
    ensures 64 * p + c in Masked(RowsBelow(b, r), lgK) || (p == LowBits(r, lgK) && 64 * r + c in b)
  {
    hide LowBits;
    var rc :| rc in RowsBelow(b, r + 1) && MaskCoupon(rc, lgK) == 64 * p + c;
    if rc / 64 == r {
      assert rc == 64 * r + c;
    } else {
      assert rc in RowsBelow(b, r);
    }
  }

  lemma FoldedBitTo(b: set<nat>, lgK: nat, r: nat, p: nat, c: nat)
    requires Col(c) && (64 * p + c in Masked(RowsBelow(b, r), lgK) || (p == LowBits(r, lgK) && 64 * r + c in b))
    ensures 64 * p + c in Masked(RowsBelow(b, r + 1), lgK)
  {
    hide LowBits;
    if 64 * p + c in Masked(RowsBelow(b, r), lgK) {
      var rc :| rc in RowsBelow(b, r) && MaskCoupon(rc, lgK) == 64 * p + c;
      assert rc in RowsBelow(b, r + 1);
    } else {
      assert 64 * r + c in RowsBelow(b, r + 1) && MaskCoupon(64 * r + c, lgK) == 64 * p + c;
    }
  }

  // ------------------------------------------------------ counting coupons

  /** The number of ones in a matrix. */
  ghost function PopCount(matrix: seq<Row>): nat {
    if matrix == [] then 0 else PopCount(matrix[..|matrix| - 1]) + |matrix[|matrix| - 1]|
  }

  lemma {:induction false} PopCountPrefix(matrix: seq<Row>, coupons: set<nat>, r: nat)
    requires r <= |matrix| && forall q :: 0 <= q < |matrix| ==> matrix[q] == RowOf(coupons, q)
    ensures PopCount(matrix[..r]) == |RowsBelow(coupons, r)|
  {
    if r == 0 {
      assert RowsBelow(coupons, 0) == {};
    } else {
      assert matrix[..r][..r - 1] == matrix[..r - 1];
      PopCountPrefix(matrix, coupons, r - 1);
      RowsBelowSize(coupons, r - 1);
    }
  }

  lemma RowsBelowSize(coupons: set<nat>, r: nat)
    ensures |RowsBelow(coupons, r + 1)| == |RowsBelow(coupons, r)| + |RowOf(coupons, r)|
  {
    var below, row := RowsBelow(coupons, r), set rc | rc in coupons && rc / 64 == r;
    assert RowsBelow(coupons, r + 1) == below + row && below !! row;
    RowSizeDown(coupons, r, row);
    RowSizeUp(coupons, r, row);
  }

  lemma RowSizeDown(coupons: set<nat>, r: nat, row: set<nat>)
    requires forall rc: nat :: rc in row ==> rc in coupons && rc / 64 == r
    ensures |row| <= |RowOf(coupons, r)|
  {
    hide *;
    forall rc | rc in row ensures rc >= 64 * r && rc - 64 * r in RowOf(coupons, r) {
      RowElement(coupons, r, rc);
    }
    ShiftSize(row, RowOf(coupons, r), 64 * r);
  }

  lemma RowSizeUp(coupons: set<nat>, r: nat, row: set<nat>)
    requires forall rc: nat :: rc in coupons && rc / 64 == r ==> rc in row
    ensures |RowOf(coupons, r)| <= |row|
  {
    hide *;
    forall c | c in RowOf(coupons, r) ensures c + 64 * r in row {
      RowElementBack(coupons, r, c);
    }
    ShiftUpSize(RowOf(coupons, r), row, 64 * r);
  }

  lemma RowElement(coupons: set<nat>, r: nat, rc: nat)
    requires rc in coupons && rc / 64 == r
    ensures rc >= 64 * r && rc - 64 * r in RowOf(coupons, r)
  {
    assert Col(rc % 64) && rc == 64 * r + rc % 64;
  }

  lemma RowElementBack(coupons: set<nat>, r: nat, c: nat)
    requires c in RowOf(coupons, r)
    ensures c + 64 * r in coupons && (c + 64 * r) / 64 == r
  {
  }

  lemma {:induction false} ShiftUpSize(a: set<nat>, b: set<nat>, d: nat)
    requires forall x :: x in a ==> x + d in b
    ensures |a| <= |b|
  {
    if a != {} {
      var x :| x in a;
      ShiftUpSize(a - {x}, b - {x + d}, d);
    }
  }

  /** The matrix of a coupon set has one bit for each coupon. */
  lemma PopCountIsSize(matrix: seq<Row>, coupons: set<nat>, lgK: nat)
    requires MatrixOf(matrix, coupons, lgK) && AllCoupons(lgK, coupons)
    ensures PopCount(matrix) == |coupons|
  {
    PopCountPrefix(matrix, coupons, |matrix|);
    assert matrix[..|matrix|] == matrix;
    assert RowsBelow(coupons, |matrix|) == coupons by {
      forall rc | rc in coupons ensures rc / 64 < |matrix| {
        assert Coupon(lgK, rc);
      }
    }
  }

  /** `count_bits_set_in_matrix`. */
  method CountBits(matrix: array<Row>) returns (count: nat)
    ensures count == PopCount(matrix[..])
  {
    count := 0;
    for i := 0 to matrix.Length
      invariant count == PopCount(matrix[..i])
    {
      assert matrix[..i + 1][..i] == matrix[..i];
      count := count + |matrix[i]|;
    }
    assert matrix[..matrix.Length] == matrix[..];
  }
}
